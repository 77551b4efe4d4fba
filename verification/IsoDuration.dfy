/** isoDuration: a Go duration as an ISO 8601 duration in time units, and a reader for that form. */
module IsoDuration {
  import opened GoBase
  import opened Decimal
  import opened RetryWait

  const MINUTE: int64 := 60 * SECOND
  const HOUR: int64 := 3600 * SECOND

  /** One designated component: the number and its letter. */
  function Component(n: nat, unit: byte): bytes { Format(n) + [unit] }

  /** The seconds component: whole seconds in decimal; a fractional remainder in the text float formatting gives it. */
  function Seconds(r: int64, fraction: int64 -> bytes): bytes
    requires 0 < r
  {
    if r % SECOND == 0 then Component(r / SECOND, 'S') else fraction(r) + ['S']
  }

  const EMPTY: bytes := "PT0S"
  const DESIGNATOR: bytes := "PT"

  function Hours(d: int64): nat
    requires 0 < d
  {
    d / HOUR
  }

  /** Minutes left once the hours are taken off. */
  function Minutes(d: int64): nat
    requires 0 < d
  {
    (d - Hours(d) * HOUR) / MINUTE
  }

  function Remainder(d: int64): int64
    requires 0 < d
  {
    d - Hours(d) * HOUR - Minutes(d) * MINUTE
  }

  /** What isoDuration returns: hours, minutes and the rest, each only if it is not zero. */
  function Iso(d: int64, fraction: int64 -> bytes): bytes {
    if d <= 0 then EMPTY
    else
      var h, m, r := Hours(d), Minutes(d), Remainder(d);
      DESIGNATOR + (if h > 0 then Component(h, 'H') else [])
                 + (if m > 0 then Component(m, 'M') else [])
                 + (if r > 0 then Seconds(r, fraction) else [])
  }

  /** isoDuration, taking hours and minutes off d as it goes. */
  method FormatDuration(d0: int64, fraction: int64 -> bytes) returns (text: bytes)
    ensures text == Iso(d0, fraction)
  {
    hide Component, Seconds;
    if d0 <= 0 {
      return EMPTY;
    }
    var d := d0;
    text := DESIGNATOR;
    var h := d / HOUR;
    if h > 0 {
      text := text + Component(h, 'H');
      d := d - h * HOUR;
    }
    assert d == d0 - Hours(d0) * HOUR;
    var m := d / MINUTE;
    if m > 0 {
      text := text + Component(m, 'M');
      d := d - m * MINUTE;
    }
    assert d == Remainder(d0);
    if d > 0 {
      text := text + Seconds(d, fraction);
    }
  }

  /** The components add up to the duration, the lower ones within their range, and at least one is printed. */
  lemma SplitIsExact(d: int64)
    requires 0 < d
    ensures var h, m, r := Hours(d), Minutes(d), Remainder(d);
            && d == h * HOUR + m * MINUTE + r
            && 0 <= h && 0 <= m < 60 && 0 <= r < MINUTE
            && (h > 0 || m > 0 || r > 0)
  {
  }

  /** No other components do. */
  lemma SplitIsUnique(d: int64, h: nat, m: nat, r: nat)
    requires 0 < d
    ensures (h, m, r) == (Hours(d), Minutes(d), Remainder(d))
            <==> d == h * HOUR + m * MINUTE + r && m < 60 && r < MINUTE
  {
    SplitIsExact(d);
    if d == h * HOUR + m * MINUTE + r && m < 60 && r < MINUTE {
      assert h == Hours(d);
    }
  }

  // ----- reading the text back

  /** Reads digits and a given unit at the head of s, if they are there: the number, and what is left. */
  function Take(s: bytes, unit: byte): (nat, bytes) {
    var k := DigitRun(s);
    if 0 < k < |s| && s[k] == unit then (Value(s[..k]), s[k + 1..]) else (0, s)
  }

  /** The time designator form of ISO 8601 with whole numbers, in nanoseconds. */
  function Read(s: bytes): Option<nat> {
    if !(DESIGNATOR <= s) then None
    else
      var (h, s1) := Take(s[2..], 'H');
      var (m, s2) := Take(s1, 'M');
      var (sec, s3) := Take(s2, 'S');
      if s3 == [] then Some((h * 3600 + m * 60 + sec) * SECOND) else None
  }

  /** Rest of a text that a given unit cannot be read from: nothing, or digits followed by another unit. */
  ghost predicate NotUnit(s: bytes, unit: byte) {
    s == [] || (DigitRun(s) < |s| && s[DigitRun(s)] != unit)
  }

  lemma TakeComponent(n: nat, unit: byte, rest: bytes)
    requires !IsDigit(unit)
    ensures Take(Component(n, unit) + rest, unit) == (n, rest)
    ensures forall other: byte :: other != unit ==> NotUnit(Component(n, unit) + rest, other)
  {
    var s := Component(n, unit) + rest;
    assert s == Format(n) + ([unit] + rest);
    DigitRunOf(Format(n), [unit] + rest);
    ValueOfFormat(n);
    assert s[|Format(n)| + 1..] == rest;
  }

  lemma TakeNothing(s: bytes, unit: byte)
    requires NotUnit(s, unit)
    ensures Take(s, unit) == (0, s)
  {
  }

  /** A component that is printed only if it is not zero. */
  function Optional(n: nat, unit: byte): bytes { if n > 0 then Component(n, unit) else [] }

  lemma ReadSeconds(sec: nat, ts: bytes)
    requires ts == Optional(sec, 'S')
    ensures Take(ts, 'S') == (sec, [])
    ensures NotUnit(ts, 'M') && NotUnit(ts, 'H')
  {
    if sec > 0 {
      TakeComponent(sec, 'S', []);
      assert Component(sec, 'S') + [] == ts;
    } else {
      TakeNothing(ts, 'S');
    }
  }

  lemma ReadMinutes(m: nat, ts: bytes)
    requires NotUnit(ts, 'M') && NotUnit(ts, 'H')
    ensures var tm := Optional(m, 'M') + ts;
            Take(tm, 'M') == (m, ts) && NotUnit(tm, 'H')
  {
    if m > 0 {
      TakeComponent(m, 'M', ts);
    } else {
      assert [] + ts == ts;
      TakeNothing(ts, 'M');
    }
  }

  lemma ReadHours(h: nat, tm: bytes)
    requires NotUnit(tm, 'H')
    ensures Take(Optional(h, 'H') + tm, 'H') == (h, tm)
  {
    if h > 0 {
      TakeComponent(h, 'H', tm);
    } else {
      assert [] + tm == tm;
      TakeNothing(tm, 'H');
    }
  }

  lemma ReadParts(h: nat, m: nat, sec: nat)
    ensures Read(DESIGNATOR + (Optional(h, 'H') + (Optional(m, 'M') + Optional(sec, 'S'))))
            == Some((h * 3600 + m * 60 + sec) * SECOND)
  {
    hide Component, Take;
    var ts := Optional(sec, 'S');
    var tm := Optional(m, 'M') + ts;
    var th := Optional(h, 'H') + tm;
    assert (DESIGNATOR + th)[2..] == th;
    ReadSeconds(sec, ts);
    ReadMinutes(m, ts);
    ReadHours(h, tm);
  }

  lemma IsoOfWholeSeconds(d: int64, sec: nat, fraction: int64 -> bytes)
    requires 0 < d && Remainder(d) == sec * SECOND
    ensures Iso(d, fraction)
            == DESIGNATOR + (Optional(Hours(d), 'H') + (Optional(Minutes(d), 'M') + Optional(sec, 'S')))
  {
    hide Component, Hours, Minutes, Remainder;
    var a, b, c := Optional(Hours(d), 'H'), Optional(Minutes(d), 'M'), Optional(sec, 'S');
    assert sec > 0 ==> Seconds(sec * SECOND, fraction) == c;
    assert DESIGNATOR + a + b + c == DESIGNATOR + (a + (b + c));
  }

  lemma WholeRemainder(d: int64)
    requires 0 < d && d % SECOND == 0
    ensures Remainder(d) % SECOND == 0 && Remainder(d) == Remainder(d) / SECOND * SECOND
  {
    assert d == d / SECOND * SECOND;
    assert Remainder(d) == (d / SECOND - 3600 * Hours(d) - 60 * Minutes(d)) * SECOND;
  }

  /** Every positive whole number of seconds survives the trip. */
  lemma WholeSecondsRoundTrip(d: int64, fraction: int64 -> bytes)
    requires 0 < d && d % SECOND == 0
    ensures Read(Iso(d, fraction)) == Some(d)
  {
    hide Read, Iso, Optional, Hours, Minutes, Remainder;
    SplitIsExact(d);
    WholeRemainder(d);
    var sec: nat := Remainder(d) / SECOND;
    IsoOfWholeSeconds(d, sec, fraction);
    ReadParts(Hours(d), Minutes(d), sec);
  }

  predicate IsDecimalByte(c: byte) { IsDigit(c) || c == '.' }

  /** A reader gets back, from digits and a dot, every remainder below a minute as the seconds component writes it. */
  ghost predicate Faithful(fraction: int64 -> bytes, parse: bytes -> Option<int>) {
    forall r: int64 :: 0 < r < MINUTE ==>
      if r % SECOND == 0 then parse(Format(r / SECOND)) == Some(r)
      else (forall i :: 0 <= i < |fraction(r)| ==> IsDecimalByte(fraction(r)[i])) && parse(fraction(r)) == Some(r)
  }

  function DottedRead(s: bytes): int {
    var k := DigitRun(s);
    if k < |s| then Value(s[..k]) else Value(s[..k]) * SECOND
  }

  lemma DottedReads(n: nat)
    ensures DottedRead(Format(n) + ['.']) == n && DottedRead(Format(n)) == n * SECOND
  {
    var s := Format(n);
    DigitRunOf(s, ['.']);
    DigitRunOf(s, []);
    assert s + [] == s && s[..|s|] == s;
    ValueOfFormat(n);
  }

  /** There are such texts: the nanoseconds with a dot after them, say. */
  lemma FaithfulTextsExist() returns (fraction: int64 -> bytes, parse: bytes -> Option<int>)
    ensures Faithful(fraction, parse)
  {
    hide DottedRead, Format;
    fraction := (r: int64) => if r > 0 then Format(r) + ['.'] else [];
    parse := (s: bytes) => Some(DottedRead(s));
    forall r: int64 | 0 < r < MINUTE
      ensures if r % SECOND == 0 then parse(Format(r / SECOND)) == Some(r)
              else (forall i :: 0 <= i < |fraction(r)| ==> IsDecimalByte(fraction(r)[i]))
                   && parse(fraction(r)) == Some(r)
    {
      DottedReads(r);
      DottedReads(r / SECOND);
    }
  }

  /** The time designator form with decimal seconds, in nanoseconds. */
  function ReadDecimal(s: bytes, parse: bytes -> Option<int>): Option<int> {
    if !(DESIGNATOR <= s) then None
    else
      var (h, s1) := Take(s[2..], 'H');
      var (m, s2) := Take(s1, 'M');
      if s2 == [] then Some(h * HOUR + m * MINUTE)
      else if s2[|s2| - 1] != 'S' || parse(s2[..|s2| - 1]).None? then None
      else Some(h * HOUR + m * MINUTE + parse(s2[..|s2| - 1]).value)
  }

  lemma DecimalIsNoOtherUnit(x: bytes)
    requires forall i :: 0 <= i < |x| ==> IsDecimalByte(x[i])
    ensures NotUnit(x + ['S'], 'M') && NotUnit(x + ['S'], 'H')
  {
    var s := x + ['S'];
    var k := DigitRun(s);
    assert s[|x|] == 'S' && AllDigits(s[..k]);
    assert s[k] == 'S' || IsDecimalByte(s[k]);
  }

  /** The seconds component is a decimal number of the whole remainder, and an S. */
  lemma SecondsAre(r: int64, fraction: int64 -> bytes, parse: bytes -> Option<int>)
    requires 0 < r < MINUTE && Faithful(fraction, parse)
    ensures var s := Seconds(r, fraction);
            && s != [] && s[|s| - 1] == 'S' && parse(s[..|s| - 1]) == Some(r)
            && NotUnit(s, 'M') && NotUnit(s, 'H')
  {
    var x := if r % SECOND == 0 then Format(r / SECOND) else fraction(r);
    assert Seconds(r, fraction) == x + ['S'];
    DecimalIsNoOtherUnit(x);
    assert (x + ['S'])[..|x|] == x;
  }

  /** The text of a remainder: none, or its seconds component. */
  function SecondsText(r: nat, fraction: int64 -> bytes): bytes
    requires r < MINUTE
  {
    if r > 0 then Seconds(r, fraction) else []
  }

  lemma IsoIs(d: int64, fraction: int64 -> bytes)
    requires 0 < d && Remainder(d) < MINUTE && 0 <= Remainder(d)
    ensures Iso(d, fraction)
            == DESIGNATOR + (Optional(Hours(d), 'H')
                             + (Optional(Minutes(d), 'M') + SecondsText(Remainder(d), fraction)))
  {
    hide Component, Hours, Minutes, Remainder, Seconds;
    var a, b, c := Optional(Hours(d), 'H'), Optional(Minutes(d), 'M'), SecondsText(Remainder(d), fraction);
    assert DESIGNATOR + a + b + c == DESIGNATOR + (a + (b + c));
  }

  lemma SecondsTextReads(r: nat, fraction: int64 -> bytes, parse: bytes -> Option<int>)
    requires r < MINUTE && Faithful(fraction, parse)
    ensures var s := SecondsText(r, fraction);
            && NotUnit(s, 'M') && NotUnit(s, 'H')
            && if r == 0 then s == [] else s != [] && s[|s| - 1] == 'S' && parse(s[..|s| - 1]) == Some(r)
  {
    hide Seconds, Faithful;
    if r > 0 { SecondsAre(r, fraction, parse); }
  }

  lemma ReadDecimalParts(h: nat, m: nat, r: nat, ts: bytes, parse: bytes -> Option<int>)
    requires NotUnit(ts, 'M') && NotUnit(ts, 'H')
    requires if r == 0 then ts == [] else ts != [] && ts[|ts| - 1] == 'S' && parse(ts[..|ts| - 1]) == Some(r)
    ensures ReadDecimal(DESIGNATOR + (Optional(h, 'H') + (Optional(m, 'M') + ts)), parse)
            == Some(h * HOUR + m * MINUTE + r)
  {
    hide Component, Take, Optional, NotUnit;
    var tm := Optional(m, 'M') + ts;
    var th := Optional(h, 'H') + tm;
    assert (DESIGNATOR + th)[2..] == th;
    ReadMinutes(m, ts);
    ReadHours(h, tm);
  }

  /**
   * Every positive duration survives the trip, whatever the fraction's text, so long as that text can itself be read
   * back: nothing else of the duration depends on it.
   */
  lemma EveryDurationRoundTrips(d: int64, fraction: int64 -> bytes, parse: bytes -> Option<int>)
    requires 0 < d && Faithful(fraction, parse)
    ensures ReadDecimal(Iso(d, fraction), parse) == Some(d)
  {
    hide Optional, Hours, Minutes, Remainder, SecondsText, Iso, ReadDecimal, Faithful, NotUnit;
    SplitIsExact(d);
    IsoIs(d, fraction);
    SecondsTextReads(Remainder(d), fraction, parse);
    ReadDecimalParts(Hours(d), Minutes(d), Remainder(d), SecondsText(Remainder(d), fraction), parse);
  }

  /** Hence two different whole-second durations never share a text. */
  lemma WholeSecondsInjective(d: int64, e: int64, fraction: int64 -> bytes)
    requires 0 < d && d % SECOND == 0 && 0 < e && e % SECOND == 0
    ensures Iso(d, fraction) == Iso(e, fraction) <==> d == e
  {
    WholeSecondsRoundTrip(d, fraction);
    WholeSecondsRoundTrip(e, fraction);
  }

  lemma ReadEmpty()
    ensures Read(EMPTY) == Some(0)
  {
    var s: bytes := "0S";
    assert EMPTY[2..] == s;
    assert s == Component(0, 'S') + [];
    TakeComponent(0, 'S', []);
    TakeNothing(s, 'H');
    TakeNothing(s, 'M');
  }

  /** Any other duration is written as no time at all. */
  lemma NonPositiveIsZero(d: int64, fraction: int64 -> bytes)
    requires d <= 0
    ensures Iso(d, fraction) == "PT0S" && Read(Iso(d, fraction)) == Some(0)
  {
    ReadEmpty();
  }

  /** A positive duration always prints a component, and a whole-second one never reads as no time at all. */
  lemma PositivePrintsAComponent(d: int64, fraction: int64 -> bytes)
    requires 0 < d
    ensures |Iso(d, fraction)| > 2
    ensures d % SECOND == 0 ==> Iso(d, fraction) != EMPTY
  {
    SplitIsExact(d);
    if d % SECOND == 0 {
      hide Iso;
      WholeSecondsRoundTrip(d, fraction);
      ReadEmpty();
    }
  }
}
