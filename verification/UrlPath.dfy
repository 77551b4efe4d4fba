/** Request paths: checkID, buildPath and resolvePath, over net/url's escaping rules. */
module UrlPath {
  import opened GoBase
  import opened Strings

  const SLASH: byte := '/'
  const PERCENT: byte := '%'

  // ----- percent-encoding (RFC 3986, sections 2.1 to 2.3)

  predicate IsHex(c: byte) { '0' <= c <= '9' || 'a' <= c <= 'f' || 'A' <= c <= 'F' }

  function Unhex(c: byte): (v: nat)
    requires IsHex(c)
    ensures v < 16
  {
    if '0' <= c <= '9' then c as int - '0' as int
    else if 'a' <= c <= 'f' then c as int - 'a' as int + 10
    else c as int - 'A' as int + 10
  }

  function UpperHex(v: nat): (c: byte)
    requires v < 16
    ensures IsHex(c) && Unhex(c) == v && !('a' <= c <= 'f')
  {
    if v < 10 then ('0' as int + v) as char else ('A' as int + v - 10) as char
  }

  /** The "unreserved" bytes of RFC 3986, section 2.3. */
  predicate IsUnreserved(c: byte) {
    'a' <= c <= 'z' || 'A' <= c <= 'Z' || '0' <= c <= '9' || c in "-_.~"
  }

  /** url.PathEscape escapes for one segment, URL.EscapedPath for a whole path. */
  datatype Mode = Segment | WholePath

  predicate ShouldEscape(c: byte, mode: Mode) {
    !IsUnreserved(c) && c !in "$&+:=@" && (mode.Segment? || c !in ",/;")
  }

  function EscapeByte(c: byte, mode: Mode): bytes {
    if ShouldEscape(c, mode) then [PERCENT, UpperHex(c as int / 16), UpperHex(c as int % 16)] else [c]
  }

  function Escape(s: bytes, mode: Mode): bytes {
    if s == [] then [] else EscapeByte(s[0], mode) + Escape(s[1..], mode)
  }

  /** url.PathEscape. */
  function PathEscape(s: bytes): bytes { Escape(s, Segment) }

  predicate StartsTriplet(s: bytes) { |s| >= 3 && s[0] == PERCENT && IsHex(s[1]) && IsHex(s[2]) }

  function TripletByte(s: bytes): byte
    requires StartsTriplet(s)
  {
    (16 * Unhex(s[1]) + Unhex(s[2])) as char
  }

  function Prepend(a: bytes, r: Option<bytes>): (p: Option<bytes>)
    ensures a == [] ==> p == r
  {
    if r.Some? then
      assert [] + r.value == r.value;
      Some(a + r.value)
    else None
  }

  lemma PrependTwice(a: bytes, b: bytes, r: Option<bytes>)
    ensures Prepend(a, Prepend(b, r)) == Prepend(a + b, r)
  {
    if r.Some? {
      assert a + (b + r.value) == (a + b) + r.value;
    }
  }

  /** url.PathUnescape: None stands for its escape error. */
  function PathUnescape(s: bytes): Option<bytes> {
    if s == [] then Some([])
    else if s[0] != PERCENT then Prepend([s[0]], PathUnescape(s[1..]))
    else if StartsTriplet(s) then Prepend([TripletByte(s)], PathUnescape(s[3..]))
    else None
  }

  lemma SlashUnescapes()
    ensures PathUnescape([SLASH]) == Some([SLASH])
  {
    var s: bytes := [SLASH];
    assert s[1..] == [];
    assert PathUnescape(s[1..]) == Some([]);
    assert [s[0]] + [] == s;
  }

  lemma EscapeByteDecodes(c: byte, mode: Mode, rest: bytes)
    ensures PathUnescape(EscapeByte(c, mode) + rest) == Prepend([c], PathUnescape(rest))
  {
    var e := EscapeByte(c, mode);
    assert (e + rest)[|e|..] == rest;
    if ShouldEscape(c, mode) {
      assert StartsTriplet(e + rest) && TripletByte(e + rest) == c;
    }
  }

  /** Unescaping reads back an escaped string byte for byte, whatever follows it. */
  lemma {:induction false} UnescapeOfEscape(s: bytes, mode: Mode, rest: bytes)
    ensures PathUnescape(Escape(s, mode) + rest) == Prepend(s, PathUnescape(rest))
  {
    if s == [] {
      assert Escape(s, mode) + rest == rest;
    } else {
      var tail := Escape(s[1..], mode) + rest;
      assert Escape(s, mode) + rest == EscapeByte(s[0], mode) + tail;
      EscapeByteDecodes(s[0], mode, tail);
      UnescapeOfEscape(s[1..], mode, rest);
      PrependTwice([s[0]], s[1..], PathUnescape(rest));
      assert [s[0]] + s[1..] == s;
    }
  }

  lemma EscapeRoundTrip(s: bytes, mode: Mode)
    ensures PathUnescape(Escape(s, mode)) == Some(s)
  {
    UnescapeOfEscape(s, mode, []);
    assert Escape(s, mode) + [] == Escape(s, mode);
    assert s + [] == s;
  }

  /** A string that unescapes does so independently of what follows it. */
  lemma {:induction false} UnescapeConcat(a: bytes, b: bytes)
    requires PathUnescape(a).Some?
    ensures PathUnescape(a + b) == Prepend(PathUnescape(a).value, PathUnescape(b))
  {
    if a == [] {
      assert a + b == b;
    } else if a[0] != PERCENT {
      assert (a + b)[1..] == a[1..] + b;
      UnescapeConcat(a[1..], b);
      PrependTwice([a[0]], PathUnescape(a[1..]).value, PathUnescape(b));
    } else {
      assert (a + b)[3..] == a[3..] + b;
      UnescapeConcat(a[3..], b);
      PrependTwice([TripletByte(a)], PathUnescape(a[3..]).value, PathUnescape(b));
    }
  }

  /** A slash never completes a triplet, so a trailing one can be taken off before unescaping. */
  lemma {:induction false} UnescapeTrailingSlash(t: bytes)
    ensures PathUnescape(t + [SLASH]).Some? <==> PathUnescape(t).Some?
    ensures PathUnescape(t).Some? ==> PathUnescape(t + [SLASH]).value == PathUnescape(t).value + [SLASH]
  {
    if PathUnescape(t).Some? {
      UnescapeConcat(t, [SLASH]);
      SlashUnescapes();
    } else if t[0] != PERCENT {
      assert (t + [SLASH])[1..] == t[1..] + [SLASH];
      UnescapeTrailingSlash(t[1..]);
    } else if StartsTriplet(t) {
      assert (t + [SLASH])[3..] == t[3..] + [SLASH];
      UnescapeTrailingSlash(t[3..]);
    } else {
      assert !StartsTriplet(t + [SLASH]);
    }
  }

  lemma {:induction false} EscapeConcat(a: bytes, b: bytes, mode: Mode)
    ensures Escape(a + b, mode) == Escape(a, mode) + Escape(b, mode)
  {
    if a == [] {
      assert a + b == b;
    } else {
      assert (a + b)[1..] == a[1..] + b;
      EscapeConcat(a[1..], b, mode);
    }
  }

  /** What is sent as it is: letters, digits and ten marks, and in a whole path also the slash, comma and semicolon. */
  predicate IsPlain(c: byte, mode: Mode) {
    || 'a' <= c <= 'z' || 'A' <= c <= 'Z' || '0' <= c <= '9' || c in "-_.~$&+:=@"
    || (mode.WholePath? && c in "/,;")
  }

  /** A string needs no escaping exactly when it is made of such bytes. */
  lemma {:induction false} EscapeIsIdentityIff(s: bytes, mode: Mode)
    ensures |s| <= |Escape(s, mode)|
    ensures Escape(s, mode) == s <==> forall i :: 0 <= i < |s| ==> IsPlain(s[i], mode)
  {
    if s != [] {
      EscapeIsIdentityIff(s[1..], mode);
      var e := EscapeByte(s[0], mode);
      assert s == [s[0]] + s[1..];
      if |e| == 1 {
        assert Escape(s, mode)[1..] == Escape(s[1..], mode);
      }
      assert forall i :: 1 <= i < |s| ==> s[i] == s[1..][i - 1];
    }
  }

  const UPPER_DIGITS: bytes := "0123456789ABCDEF"
  const LOWER_DIGITS: bytes := "0123456789abcdef"

  /** Hexadecimal digits are read in either case and written in upper case. */
  lemma HexDigitsAreRead(c: byte, v: nat)
    requires v < 16
    ensures UpperHex(v) == UPPER_DIGITS[v]
    ensures IsHex(c) && Unhex(c) == v <==> c == UPPER_DIGITS[v] || c == LOWER_DIGITS[v]
  {
  }

  /** Any other byte is sent as a percent sign and its value in two such digits. */
  lemma EscapedByteIs(c: byte, mode: Mode)
    ensures EscapeByte(c, mode)
            == if IsPlain(c, mode) then [c] else ['%', UPPER_DIGITS[c as int / 16], UPPER_DIGITS[c as int % 16]]
  {
    HexDigitsAreRead('0', c as int / 16);
    HexDigitsAreRead('0', c as int % 16);
  }

  /** The percent signs of a string are those at or after n, when none of the first n bytes is a bad one. */
  lemma BadPercentAfter(s: bytes, n: nat)
    requires 0 < n <= |s|
    requires forall i :: 0 <= i < n && s[i] == '%' ==> StartsTriplet(s[i..])
    ensures (exists i :: 0 <= i < |s| && s[i] == '%' && !StartsTriplet(s[i..]))
            <==> exists i :: 0 <= i < |s[n..]| && s[n..][i] == '%' && !StartsTriplet(s[n..][i..])
  {
    if i :| 0 <= i < |s| && s[i] == '%' && !StartsTriplet(s[i..]) {
      assert s[n..][i - n] == s[i] && s[n..][i - n..] == s[i..];
    }
    if i :| 0 <= i < |s[n..]| && s[n..][i] == '%' && !StartsTriplet(s[n..][i..]) {
      assert s[n..][i] == s[i + n] && s[n..][i..] == s[i + n..];
    }
  }

  /** A string is badly escaped exactly when a percent sign in it does not have two hexadecimal digits after it. */
  lemma {:induction false} BadEscapeIff(s: bytes)
    ensures PathUnescape(s).None?
            <==> exists i :: 0 <= i < |s| && s[i] == '%' && !StartsTriplet(s[i..])
  {
    if s != [] {
      var n := if s[0] != PERCENT then 1 else if StartsTriplet(s) then 3 else 0;
      if n > 0 {
        BadEscapeIff(s[n..]);
        BadPercentAfter(s, n);
      } else {
        assert s[0..] == s;
      }
    }
  }

  // ----- net/url's URL, as far as the path goes

  /** Everything in a url.URL that resolving a path leaves alone. */
  datatype Origin = Origin(scheme: bytes, host: bytes, rawQuery: bytes, forceQuery: bool, fragment: bytes)

  /** The value of a url.URL: Path is the decoded form, RawPath an optional hint for its encoding. */
  datatype UrlValue = UrlValue(origin: Origin, path: bytes, rawPath: bytes)

  /** A byte validEncoded lets stand in an encoded path. */
  predicate EncodedByte(c: byte) {
    c in "!$&'()*+,;=:@[]%" || !ShouldEscape(c, WholePath)
  }

  /** The bytes of an encoded path: those of a path in RFC 3986, section 3.3, square brackets, and the percent sign. */
  lemma EncodedByteIff(c: byte)
    ensures EncodedByte(c)
            <==> || 'a' <= c <= 'z' || 'A' <= c <= 'Z' || '0' <= c <= '9' || c in "-._~"
                 || c in "!$&'()*+,;=" || c in ":@/" || c in "[]%"
  {
  }

  /** No byte of a validly encoded path is a delimiter of the path, a blank, a control or beyond ASCII. */
  lemma EncodedByteIsPlain(c: byte)
    requires EncodedByte(c)
    ensures c !in "?#" && ' ' < c <= '~'
  {
  }

  /** validEncoded. */
  predicate ValidEncoded(s: bytes) { forall i :: 0 <= i < |s| ==> EncodedByte(s[i]) }

  predicate RawPathHolds(u: UrlValue) {
    u.rawPath != [] && ValidEncoded(u.rawPath) && PathUnescape(u.rawPath) == Some(u.path)
  }

  /** URL.EscapedPath: RawPath where it encodes Path, otherwise Path escaped afresh. */
  function EscapedPath(u: UrlValue): bytes {
    if RawPathHolds(u) then u.rawPath
    else if u.path == "*" then "*"
    else Escape(u.path, WholePath)
  }

  lemma {:induction false} EscapeIsValid(s: bytes, mode: Mode)
    ensures ValidEncoded(Escape(s, mode))
  {
    if s != [] {
      EscapeIsValid(s[1..], mode);
    }
  }

  /** For every URL whatsoever, EscapedPath is a valid encoding of Path. */
  lemma EscapedPathEncodesPath(u: UrlValue)
    ensures PathUnescape(EscapedPath(u)) == Some(u.path)
    ensures ValidEncoded(EscapedPath(u))
  {
    EscapeRoundTrip(u.path, WholePath);
    EscapeIsValid(u.path, WholePath);
    if u.path == "*" && !RawPathHolds(u) {
      assert u.path[1..] == [];
      assert PathUnescape(u.path) == Prepend([u.path[0]], PathUnescape(u.path[1..]));
    }
  }

  // ----- path.go

  datatype IdError = MissingId | DotSegment

  /** checkID. */
  function CheckId(id: bytes): Option<IdError> {
    if id == [] then Some(MissingId)
    else if id == "." || id == ".." then Some(DotSegment)
    else None
  }

  function EscapeAll(segments: seq<bytes>): (r: seq<bytes>)
    ensures |r| == |segments|
    ensures forall i :: 0 <= i < |segments| ==> r[i] == PathEscape(segments[i])
  {
    seq(|segments|, i requires 0 <= i < |segments| => PathEscape(segments[i]))
  }

  /** What buildPath returns. */
  function Path(segments: seq<bytes>): bytes { Join(EscapeAll(segments), [SLASH]) }

  /** buildPath. */
  method BuildPath(segments: seq<bytes>) returns (path: bytes)
    ensures path == Path(segments)
  {
    var escaped := new bytes[|segments|](_ => []);
    for i := 0 to |segments|
      invariant forall j :: 0 <= j < i ==> escaped[j] == PathEscape(segments[j])
    {
      escaped[i] := PathEscape(segments[i]);
    }
    assert escaped[..] == EscapeAll(segments);
    path := Join(escaped[..], [SLASH]);
  }

  lemma {:induction false} EscapedSegmentHasNoSlash(s: bytes)
    ensures SLASH !in PathEscape(s)
  {
    if s != [] {
      EscapedSegmentHasNoSlash(s[1..]);
    }
  }

  /** Splitting a built path gives one part per segment, and each part unescapes to its own segment. */
  lemma PathIsFaithful(segments: seq<bytes>)
    requires segments != []
    ensures var parts := Split(Path(segments), SLASH);
            && |parts| == |segments|
            && forall i :: 0 <= i < |segments| ==> PathUnescape(parts[i]) == Some(segments[i])
  {
    var escaped := EscapeAll(segments);
    forall i | 0 <= i < |segments|
      ensures SLASH !in escaped[i] && PathUnescape(escaped[i]) == Some(segments[i])
    {
      EscapedSegmentHasNoSlash(segments[i]);
      EscapeRoundTrip(segments[i], Segment);
    }
    SplitOfJoin(escaped, SLASH);
  }

  lemma EmptyPath(a: seq<bytes>)
    requires a != [] && Path(a) == []
    ensures a == [[]]
  {
    PathIsFaithful(a);
    assert Split([], SLASH) == [[]];
    assert PathUnescape([]) == Some(a[0]);
  }

  /**
   * Two segment lists share a path exactly when they are equal, or are the empty list and the list of one empty
   * segment.
   */
  lemma PathIsInjective(a: seq<bytes>, b: seq<bytes>)
    ensures Path(a) == Path(b) <==> a == b || (a in {[], [[]]} && b in {[], [[]]})
  {
    assert EscapeAll([[]]) == [[]];
    assert EscapeAll([]) == [];
    if Path(a) == Path(b) {
      if a != [] && b != [] {
        PathIsFaithful(a);
        PathIsFaithful(b);
        forall i | 0 <= i < |a| ensures a[i] == b[i] {
          assert Some(a[i]) == PathUnescape(Split(Path(a), SLASH)[i]) == Some(b[i]);
        }
        assert a == b;
      } else if a != [] {
        EmptyPath(a);
      } else if b != [] {
        EmptyPath(b);
      }
    }
  }

  function TrimSlash(s: bytes): bytes {
    if s != [] && s[|s| - 1] == SLASH then s[..|s| - 1] else s
  }

  function WithEscapedPath(base: UrlValue, escaped: bytes): Option<UrlValue> {
    match PathUnescape(escaped)
    case None => None
    case Some(decoded) => Some(UrlValue(base.origin, decoded, escaped))
  }

  /** What resolvePath puts in the URL it returns. None stands for its error. */
  function Resolve(base: UrlValue, requestPath: bytes): Option<UrlValue> {
    WithEscapedPath(base, TrimSlash(EscapedPath(base)) + [SLASH] + requestPath)
  }

  /** A *url.URL. The client's base is shared by every request in flight. */
  class Url {
    var origin: Origin
    var path: bytes
    var rawPath: bytes

    constructor (v: UrlValue)
      ensures Value() == v
    {
      origin, path, rawPath := v.origin, v.path, v.rawPath;
    }

    function Value(): UrlValue
      reads this
    {
      UrlValue(origin, path, rawPath)
    }

    /** Assigns RawQuery. */
    method SetQuery(query: bytes)
      modifies this
      ensures Value() == old(Value()).(origin := old(origin).(rawQuery := query))
    {
      origin := origin.(rawQuery := query);
    }
  }

  /** resolvePath: the result is a copy, so the shared base is neither written nor handed out. */
  method ResolvePath(base: Url, requestPath: bytes) returns (u: Url?)
    ensures u == null <==> Resolve(base.Value(), requestPath).None?
    ensures u != null ==> fresh(u) && Some(u.Value()) == Resolve(base.Value(), requestPath)
  {
    var escaped := TrimSlash(EscapedPath(base.Value())) + [SLASH] + requestPath;
    var decoded := PathUnescape(escaped);
    if decoded.None? {
      return null;
    }
    u := new Url(base.Value());
    u.path := decoded.value;
    u.rawPath := escaped;
  }

  lemma TrimUnescapes(e: bytes)
    requires PathUnescape(e).Some? && ValidEncoded(e)
    ensures PathUnescape(TrimSlash(e)).Some? && ValidEncoded(TrimSlash(e))
  {
    if TrimSlash(e) != e {
      assert e == TrimSlash(e) + [SLASH];
      UnescapeTrailingSlash(TrimSlash(e));
    }
  }

  lemma TrimmedBaseUnescapes(base: UrlValue)
    ensures PathUnescape(TrimSlash(EscapedPath(base))).Some?
    ensures ValidEncoded(TrimSlash(EscapedPath(base)))
  {
    EscapedPathEncodesPath(base);
    TrimUnescapes(EscapedPath(base));
  }

  /** resolvePath fails exactly when the request path is badly escaped; no base URL can make it fail. */
  lemma ResolveFailsIffBadlyEscaped(base: UrlValue, requestPath: bytes)
    ensures Resolve(base, requestPath).None? <==> PathUnescape(requestPath).None?
  {
    TrimmedBaseUnescapes(base);
    var t := TrimSlash(EscapedPath(base));
    SlashUnescapes();
    UnescapeConcat(t, [SLASH]);
    UnescapeConcat(t + [SLASH], requestPath);
  }

  lemma {:induction false} PathUnescapes(segments: seq<bytes>)
    ensures PathUnescape(Path(segments)) == Some(Join(segments, [SLASH]))
    ensures ValidEncoded(Path(segments))
  {
    if |segments| > 0 {
      EscapeRoundTrip(segments[0], Segment);
      EscapeIsValid(segments[0], Segment);
      if |segments| > 1 {
        PathUnescapes(segments[1..]);
        assert EscapeAll(segments)[1..] == EscapeAll(segments[1..]);
        SlashUnescapes();
        UnescapeConcat(PathEscape(segments[0]), [SLASH]);
        UnescapeConcat(PathEscape(segments[0]) + [SLASH], Path(segments[1..]));
      }
    }
  }

  /**
   * A built path always resolves, against any base; the escaped form is what goes on the wire,
   * and what it decodes to is the base's own decoded path followed by the raw segments.
   */
  lemma BuiltPathResolves(base: UrlValue, segments: seq<bytes>)
    ensures var u := Resolve(base, Path(segments));
            && u.Some?
            && EscapedPath(u.value) == TrimSlash(EscapedPath(base)) + [SLASH] + Path(segments)
            && PathUnescape(TrimSlash(EscapedPath(base))).Some?
            && u.value.path == PathUnescape(TrimSlash(EscapedPath(base))).value + [SLASH] + Join(segments, [SLASH])
            && u.value.origin == base.origin
  {
    var t := TrimSlash(EscapedPath(base));
    TrimmedBaseUnescapes(base);
    PathUnescapes(segments);
    SlashUnescapes();
    UnescapeConcat(t, [SLASH]);
    UnescapeConcat(t + [SLASH], Path(segments));
    var u := Resolve(base, Path(segments)).value;
    assert ValidEncoded(u.rawPath);
    assert RawPathHolds(u);
  }

  /** The same base URL written with one more trailing slash. */
  function WithSlash(u: UrlValue): UrlValue {
    u.(path := u.path + [SLASH], rawPath := if u.rawPath == [] then [] else u.rawPath + [SLASH])
  }

  lemma RawPathHoldsWithSlash(u: UrlValue)
    ensures RawPathHolds(WithSlash(u)) <==> RawPathHolds(u)
  {
    var r := u.rawPath;
    if r != [] {
      UnescapeTrailingSlash(r);
      assert (r + [SLASH])[..|r|] == r && EncodedByte(SLASH);
      assert ValidEncoded(r + [SLASH]) ==> ValidEncoded(r) by {
        assert forall i :: 0 <= i < |r| ==> r[i] == (r + [SLASH])[i];
      }
      if PathUnescape(r).Some? {
        assert (PathUnescape(r).value + [SLASH])[..|PathUnescape(r).value|] == PathUnescape(r).value;
        assert (u.path + [SLASH])[..|u.path|] == u.path;
      }
    }
  }

  lemma EscapedPathWithSlash(u: UrlValue)
    requires u.path != "*" || RawPathHolds(u)
    ensures EscapedPath(WithSlash(u)) == EscapedPath(u) + [SLASH]
  {
    RawPathHoldsWithSlash(u);
    if !RawPathHolds(u) {
      EscapeConcat(u.path, [SLASH], WholePath);
      assert (u.path + [SLASH])[|u.path|] == SLASH;
      assert EscapeByte(SLASH, WholePath) == [SLASH];
      assert Escape([SLASH], WholePath) == EscapeByte(SLASH, WholePath) + Escape([], WholePath);
    }
  }

  lemma SuffixCancels(a: bytes, b: bytes, tail: bytes)
    ensures a + tail == b + tail <==> a == b
  {
    if |a| == |b| {
      assert (a + tail)[..|a|] == a && (b + tail)[..|b|] == b;
    } else {
      assert |a + tail| != |b + tail|;
    }
  }

  lemma SameTarget(u: UrlValue, v: UrlValue, segments: seq<bytes>)
    requires u.origin == v.origin
    ensures Resolve(u, Path(segments)) == Resolve(v, Path(segments))
            <==> TrimSlash(EscapedPath(u)) == TrimSlash(EscapedPath(v))
  {
    var a, b := TrimSlash(EscapedPath(u)), TrimSlash(EscapedPath(v));
    if Resolve(u, Path(segments)) == Resolve(v, Path(segments)) {
      BuiltPathResolves(u, segments);
      BuiltPathResolves(v, segments);
      assert a + [SLASH] + Path(segments) == b + [SLASH] + Path(segments);
      SuffixCancels(a + [SLASH], b + [SLASH], Path(segments));
      SuffixCancels(a, b, [SLASH]);
    }
  }

  lemma StarIsRespelled(u: UrlValue)
    requires u.path == "*" && !RawPathHolds(u)
    ensures TrimSlash(EscapedPath(u)) == "*"
    ensures |TrimSlash(EscapedPath(WithSlash(u)))| > 1
  {
    RawPathHoldsWithSlash(u);
    var s: bytes := ['*', SLASH];
    assert WithSlash(u).path == s && s[1..] == [SLASH];
    assert Escape(s, WholePath) == EscapeByte('*', WholePath) + Escape(s[1..], WholePath);
    assert |EscapeByte('*', WholePath)| == 3;
  }

  /** The base URL's path is empty or absolute, as url.Parse leaves it whenever there is a host. */
  ghost predicate HasAbsolutePath(base: UrlValue) {
    EscapedPath(base) == [] || EscapedPath(base)[0] == SLASH
  }

  /**
   * One trailing slash on the base URL makes no difference exactly when the base has none already
   * and is not the bare "*" that EscapedPath spells differently on its own.
   */
  lemma TrailingSlashIsImmaterial(base: UrlValue, segments: seq<bytes>)
    ensures Resolve(WithSlash(base), Path(segments)) == Resolve(base, Path(segments))
            <==> (EscapedPath(base) == TrimSlash(EscapedPath(base)) && (base.path != "*" || RawPathHolds(base)))
  {
    SameTarget(WithSlash(base), base, segments);
    if base.path != "*" || RawPathHolds(base) {
      EscapedPathWithSlash(base);
      assert TrimSlash(EscapedPath(base) + [SLASH]) == EscapedPath(base);
    } else {
      StarIsRespelled(base);
    }
  }

  /** For the bases url.Parse yields: a base and the same base with a slash are one exactly when the first has none. */
  lemma FirstTrailingSlashIsImmaterial(base: UrlValue, segments: seq<bytes>)
    requires HasAbsolutePath(base)
    ensures var e := EscapedPath(base);
            Resolve(WithSlash(base), Path(segments)) == Resolve(base, Path(segments))
            <==> e == [] || e[|e| - 1] != SLASH
  {
    TrailingSlashIsImmaterial(base, segments);
    if base.path == "*" && !RawPathHolds(base) { assert EscapedPath(base) == "*"; }
  }

  /** So a second slash does matter: base paths of one slash and of two send every request elsewhere. */
  lemma SecondSlashMatters(o: Origin, segments: seq<bytes>)
    ensures WithSlash(UrlValue(o, "/", "")) == UrlValue(o, "//", "")
    ensures Resolve(UrlValue(o, "//", ""), Path(segments)) != Resolve(UrlValue(o, "/", ""), Path(segments))
  {
    var one: bytes := "/";
    var base := UrlValue(o, one, []);
    assert one[1..] == [];
    assert Escape(one, WholePath) == EscapeByte(SLASH, WholePath) + Escape(one[1..], WholePath) == [SLASH];
    assert one + [SLASH] == "//";
    FirstTrailingSlashIsImmaterial(base, segments);
  }
}
