/** How long one retry waits: retryWait, exponentialBackoff, retryJitter and parseRetryAfter. */
module RetryWait {
  import opened GoBase
  import opened Decimal

  const SECOND: int64 := 1_000_000_000
  const DEFAULT_MAX_RETRY_WAIT: int64 := 30 * SECOND
  const MAX_RETRY_JITTER: int64 := 2 * SECOND

  /** The largest cap under which no wait can overflow. */
  const MAX_SAFE_CAP: int64 := MAX_INT64 - MAX_RETRY_JITTER + 1

  function Pow2(n: nat): nat { if n == 0 then 1 else 2 * Pow2(n - 1) }

  lemma {:induction false} Pow2Monotone(m: nat, n: nat)
    requires m <= n
    ensures 1 <= Pow2(m) <= Pow2(n)
    ensures m < n ==> 2 * Pow2(m) <= Pow2(n)
    decreases n
  {
    if m < n {
      Pow2Monotone(m, n - 1);
    } else if n > 0 {
      Pow2Monotone(n - 1, n - 1);
    }
  }

  lemma Pow2Fits(n: nat)
    requires n < 30
    ensures 1 <= Pow2(n) <= 536870912
  {
    assert Pow2(8) == 256;
    assert Pow2(16) == 65536;
    assert Pow2(24) == 16777216;
    assert Pow2(29) == 536870912;
    Pow2Monotone(n, 29);
  }

  /** exponentialBackoff: 1 s, 2 s, 4 s, ... and the largest duration from attempt 30 on. */
  function Backoff(attempt: nat): int64 {
    if attempt >= 30 then MAX_INT64
    else
      Pow2Fits(attempt);
      Pow2(attempt) * SECOND
  }

  /** The two-way result of drawing from crypto/rand: a number, or a failed source. */
  type Draw = Option<nat>

  function JitterWindow(base: int64): int64 { Min(TruncDiv(base, 2), MAX_RETRY_JITTER) }

  /** retryJitter: a draw is cut to the window, so the draws reach exactly its values. */
  function RetryJitter(base: int64, draw: Draw): int64 {
    var window := JitterWindow(base);
    if window <= 0 || draw.None? then 0 else Min(draw.value, window - 1)
  }

  function MaxRetryWait(retryMaxWait: int64): int64 {
    if retryMaxWait > 0 then retryMaxWait else DEFAULT_MAX_RETRY_WAIT
  }

  /** The wait before jitter. */
  function BaseWait(retryMaxWait: int64, attempt: nat, retryAfter: int64): int64 {
    Min(Max(retryAfter, Backoff(attempt)), MaxRetryWait(retryMaxWait))
  }

  /** retryWait. The final addition is the one step that can overflow. */
  function Wait(retryMaxWait: int64, attempt: nat, retryAfter: int64, draw: Draw): int64 {
    var base := BaseWait(retryMaxWait, attempt, retryAfter);
    Wrap64(base + RetryJitter(base, draw))
  }

  /** The exponential curve never falls, the jump at attempt 30 included. */
  lemma BackoffMonotone(i: nat, j: nat)
    requires i <= j
    ensures SECOND <= Backoff(i) <= Backoff(j)
    ensures i < j < 30 ==> 2 * Backoff(i) <= Backoff(j)
    ensures j == i + 1 < 30 ==> Backoff(j) == 2 * Backoff(i)
    ensures Backoff(0) == SECOND
  {
    if j < 30 {
      Pow2Monotone(i, j);
    } else if i < 30 {
      Pow2Fits(i);
    }
  }

  /**
   * The base wait reaches a duration exactly when the cap does and the header or the backoff does; so it is positive
   * for every header, even one whose multiplication overflowed to a negative.
   */
  lemma BaseWaitIsExact(retryMaxWait: int64, attempt: nat, retryAfter: int64, v: int)
    ensures var base := BaseWait(retryMaxWait, attempt, retryAfter);
            && (v <= base <==> v <= MaxRetryWait(retryMaxWait) && (v <= retryAfter || v <= Backoff(attempt)))
            && 0 < base
  {
    BackoffMonotone(0, attempt);
  }

  lemma BaseWaitRange(retryMaxWait: int64, attempt: nat, retryAfter: int64)
    ensures var base := BaseWait(retryMaxWait, attempt, retryAfter);
            && Min(Backoff(attempt), MaxRetryWait(retryMaxWait)) <= base <= MaxRetryWait(retryMaxWait)
            && 0 < base
            && (retryAfter <= MaxRetryWait(retryMaxWait) ==> retryAfter <= base)
  {
    BackoffMonotone(0, attempt);
  }

  /** The cap is the one the caller gave: the base wait is the larger of header and backoff, up to that. */
  lemma BaseWaitIsCapped(retryMaxWait: int64, attempt: nat, retryAfter: int64)
    ensures var base := BaseWait(retryMaxWait, attempt, retryAfter);
            var cap := if retryMaxWait > 0 then retryMaxWait else 30 * SECOND;
            && base <= cap
            && (base == cap <==> cap <= retryAfter || cap <= Backoff(attempt))
            && (base < cap ==> retryAfter <= base && Backoff(attempt) <= base && base in {retryAfter, Backoff(attempt)})
  {
  }

  lemma JitterWithinWindow(base: int64, v: int)
    ensures (exists draw: Draw :: RetryJitter(base, draw) == v) <==> 0 <= v < Max(JitterWindow(base), 1)
  {
    if 0 < v < JitterWindow(base) {
      assert RetryJitter(base, Some(v)) == v;
    } else if v == 0 {
      assert RetryJitter(base, None) == v;
    }
  }

  /** Jitter is none, or anything below half the base and below 2 s; a failed random source gives none. */
  lemma JitterRange(base: int64, v: int)
    ensures (exists draw: Draw :: RetryJitter(base, draw) == v)
            <==> v == 0 || (0 < v < 2 * SECOND && 2 * (v + 1) <= base)
    ensures RetryJitter(base, None) == 0
  {
    JitterWithinWindow(base, v);
  }

  lemma WaitDoesNotWrap(retryMaxWait: int64, attempt: nat, retryAfter: int64, draw: Draw)
    requires BaseWait(retryMaxWait, attempt, retryAfter) <= MAX_SAFE_CAP
    ensures var base := BaseWait(retryMaxWait, attempt, retryAfter);
            && Wait(retryMaxWait, attempt, retryAfter, draw) == base + RetryJitter(base, draw)
            && base <= Wait(retryMaxWait, attempt, retryAfter, draw) < base + Max(JitterWindow(base), 1)
  {
    var base := BaseWait(retryMaxWait, attempt, retryAfter);
    BaseWaitRange(retryMaxWait, attempt, retryAfter);
    JitterWithinWindow(base, RetryJitter(base, draw));
  }

  /** The waits an attempt can produce are its base, or more by less than half of it and less than 2 s. */
  lemma WaitRange(retryMaxWait: int64, attempt: nat, retryAfter: int64, v: int64)
    requires BaseWait(retryMaxWait, attempt, retryAfter) <= MAX_SAFE_CAP
    ensures var base := BaseWait(retryMaxWait, attempt, retryAfter);
            (exists draw: Draw :: Wait(retryMaxWait, attempt, retryAfter, draw) == v)
            <==> v == base || (base < v < base + 2 * SECOND && 2 * (v - base + 1) <= base)
  {
    var base := BaseWait(retryMaxWait, attempt, retryAfter);
    forall draw: Draw
      ensures Wait(retryMaxWait, attempt, retryAfter, draw) == base + RetryJitter(base, draw)
    {
      WaitDoesNotWrap(retryMaxWait, attempt, retryAfter, draw);
    }
    JitterRange(base, v - base);
    if draw: Draw :| RetryJitter(base, draw) == v - base {
      assert Wait(retryMaxWait, attempt, retryAfter, draw) == v;
    }
  }

  /** A cap is overflow-free for every attempt, header and draw exactly when it is at most MAX_SAFE_CAP. */
  lemma NoOverflowIffSafeCap(retryMaxWait: int64)
    ensures (forall attempt: nat, retryAfter: int64, draw: Draw ::
               Wait(retryMaxWait, attempt, retryAfter, draw) >= BaseWait(retryMaxWait, attempt, retryAfter))
            <==> MaxRetryWait(retryMaxWait) <= MAX_SAFE_CAP
  {
    var c := MaxRetryWait(retryMaxWait);
    if c <= MAX_SAFE_CAP {
      forall attempt: nat, retryAfter: int64, draw: Draw
        ensures Wait(retryMaxWait, attempt, retryAfter, draw) >= BaseWait(retryMaxWait, attempt, retryAfter)
      {
        BaseWaitRange(retryMaxWait, attempt, retryAfter);
        WaitDoesNotWrap(retryMaxWait, attempt, retryAfter, draw);
      }
    } else {
      // From attempt 30 on the base is the cap itself; the largest draw then wraps to a negative wait.
      assert BaseWait(retryMaxWait, 30, 0) == c;
      var n: nat := MAX_RETRY_JITTER - 1;
      assert RetryJitter(c, Some(n)) == n;
      assert Wait(retryMaxWait, 30, 0, Some(n)) == c + n - 0x1_0000_0000_0000_0000;
      assert Wait(retryMaxWait, 30, 0, Some(n)) < BaseWait(retryMaxWait, 30, 0);
    }
  }

  /** The cap the caller gave, or 30 s, is what its documentation says: a bound on the wait. */
  ghost predicate CapBounds(retryMaxWait: int64, attempt: nat, retryAfter: int64) {
    var cap := if retryMaxWait > 0 then retryMaxWait else 30 * SECOND;
    forall draw: Draw :: Wait(retryMaxWait, attempt, retryAfter, draw) <= cap
  }

  lemma WaitIsAtMost(retryMaxWait: int64, attempt: nat, retryAfter: int64, draw: Draw)
    ensures var base := BaseWait(retryMaxWait, attempt, retryAfter);
            Wait(retryMaxWait, attempt, retryAfter, draw) <= base + Max(JitterWindow(base), 1) - 1
  {
    var base := BaseWait(retryMaxWait, attempt, retryAfter);
    BaseWaitRange(retryMaxWait, attempt, retryAfter);
    JitterWithinWindow(base, RetryJitter(base, draw));
  }

  /** It is so of an attempt and a header exactly when it leaves room for the jitter, or is no cap at all. */
  lemma CapBoundsWaitIff(retryMaxWait: int64, attempt: nat, retryAfter: int64)
    ensures var base := BaseWait(retryMaxWait, attempt, retryAfter);
            var c := if retryMaxWait > 0 then retryMaxWait else 30 * SECOND;
            CapBounds(retryMaxWait, attempt, retryAfter)
            <==> base + Max(JitterWindow(base), 1) - 1 <= c || c == MAX_INT64
  {
    var base, c := BaseWait(retryMaxWait, attempt, retryAfter), MaxRetryWait(retryMaxWait);
    BaseWaitRange(retryMaxWait, attempt, retryAfter);
    if base + Max(JitterWindow(base), 1) - 1 <= c {
      hide Wait, RetryJitter;
      forall draw: Draw ensures Wait(retryMaxWait, attempt, retryAfter, draw) <= c {
        WaitIsAtMost(retryMaxWait, attempt, retryAfter, draw);
      }
    } else if c < MAX_INT64 {
      var n: nat := c + 1 - base;
      assert RetryJitter(base, Some(n)) == n;
      assert Wait(retryMaxWait, attempt, retryAfter, Some(n)) == c + 1;
    }
  }

  /** Over all attempts and headers, only a cap of three nanoseconds or less, or none, bounds every wait. */
  lemma CapBoundsEveryWaitIff(retryMaxWait: int64)
    ensures var c := if retryMaxWait > 0 then retryMaxWait else 30 * SECOND;
            (forall attempt: nat, retryAfter: int64 :: CapBounds(retryMaxWait, attempt, retryAfter))
            <==> c <= 3 || c == MAX_INT64
  {
    hide Wait, CapBounds;
    var c := MaxRetryWait(retryMaxWait);
    forall attempt: nat, retryAfter: int64 | c <= 3 || c == MAX_INT64
      ensures CapBounds(retryMaxWait, attempt, retryAfter)
    {
      CapBoundsWaitIff(retryMaxWait, attempt, retryAfter);
      BaseWaitRange(retryMaxWait, attempt, retryAfter);
    }
    CapBoundsWaitIff(retryMaxWait, 30, 0);
    assert BaseWait(retryMaxWait, 30, 0) == c;
  }

  /** The sixth attempt of a client with default settings can wait all but 32 s under its cap of 30 s. */
  lemma WaitBeyondTheCap()
    ensures MaxRetryWait(0) == 30 * SECOND && Wait(0, 5, 0, Some(1_999_999_999)) == 32 * SECOND - 1
  {
    assert Pow2(5) == 32;
  }

  /**
   * Retry-After is a floor for every draw exactly when it does not exceed the cap and no draw can overflow;
   * the one header an overflow cannot undercut is the least duration there is.
   */
  lemma RetryAfterIsFloorIffWithinCap(retryMaxWait: int64, attempt: nat, retryAfter: int64)
    ensures (forall draw: Draw :: Wait(retryMaxWait, attempt, retryAfter, draw) >= retryAfter)
            <==> && retryAfter <= MaxRetryWait(retryMaxWait)
                 && (BaseWait(retryMaxWait, attempt, retryAfter) <= MAX_SAFE_CAP || retryAfter == MIN_INT64)
  {
    var base := BaseWait(retryMaxWait, attempt, retryAfter);
    BaseWaitRange(retryMaxWait, attempt, retryAfter);
    assert Wait(retryMaxWait, attempt, retryAfter, None) == base;
    if base <= MAX_SAFE_CAP {
      forall draw: Draw | retryAfter <= MaxRetryWait(retryMaxWait)
        ensures Wait(retryMaxWait, attempt, retryAfter, draw) >= retryAfter
      {
        WaitDoesNotWrap(retryMaxWait, attempt, retryAfter, draw);
      }
    } else {
      var n: nat := MAX_INT64 + 1 - base;
      assert RetryJitter(base, Some(n)) == n;
      assert Wait(retryMaxWait, attempt, retryAfter, Some(n)) == MIN_INT64;
    }
  }

  /** With the default cap a server that asks for 60 s is not always given them. */
  lemma RetryAfterOf60sIsCutShort(attempt: nat)
    ensures exists draw: Draw :: Wait(0, attempt, 60 * SECOND, draw) < 60 * SECOND
  {
    RetryAfterIsFloorIffWithinCap(0, attempt, 60 * SECOND);
  }

  /** Attempt i - 1 with draw d waits less than attempt i with draw e. */
  predicate Rises(retryMaxWait: int64, i: nat, before: int64, after: int64, d: Draw, e: Draw)
    requires i > 0
  {
    Wait(retryMaxWait, i - 1, before, d) < Wait(retryMaxWait, i, after, e)
  }

  ghost predicate Escalates(retryMaxWait: int64, i: nat, before: int64, after: int64)
    requires i > 0
  {
    forall d: Draw, e: Draw :: Rises(retryMaxWait, i, before, after, d, e)
  }

  /** Whatever the headers, escalation beats jitter exactly when the bases are a jitter window apart. */
  lemma EscalatesIff(retryMaxWait: int64, i: nat, before: int64, after: int64)
    requires i > 0
    ensures var b0, b1 := BaseWait(retryMaxWait, i - 1, before), BaseWait(retryMaxWait, i, after);
            Escalates(retryMaxWait, i, before, after)
            <==> b1 <= MAX_SAFE_CAP && b0 + Max(JitterWindow(b0), 1) <= b1
  {
    hide BaseWait;
    var b0, b1 := BaseWait(retryMaxWait, i - 1, before), BaseWait(retryMaxWait, i, after);
    BaseWaitRange(retryMaxWait, i - 1, before);
    BaseWaitRange(retryMaxWait, i, after);
    if b1 > MAX_SAFE_CAP {
      var n: nat := MAX_INT64 + 1 - b1;
      assert Wait(retryMaxWait, i, after, Some(n)) == MIN_INT64;
      assert !Rises(retryMaxWait, i, before, after, None, Some(n));
    } else if b0 + Max(JitterWindow(b0), 1) > b1 {
      var n: nat := Max(JitterWindow(b0), 1) - 1;
      assert Wait(retryMaxWait, i - 1, before, if b0 > b1 then None else Some(n)) >= b1;
      assert Wait(retryMaxWait, i, after, None) == b1;
      assert !Rises(retryMaxWait, i, before, after, if b0 > b1 then None else Some(n), None);
    } else {
      hide Wait, RetryJitter;
      forall d: Draw, e: Draw ensures Rises(retryMaxWait, i, before, after, d, e) {
        WaitDoesNotWrap(retryMaxWait, i - 1, before, d);
        WaitDoesNotWrap(retryMaxWait, i, after, e);
      }
    }
  }

  lemma BackoffBound(i: nat)
    ensures if i < 30 then Backoff(i) <= 536870912 * SECOND else Backoff(i) == MAX_INT64
  {
    if i < 30 { Pow2Fits(i); }
  }

  /**
   * After an attempt whose header asked for no more than the curve, escalation beats jitter exactly while the
   * curve still doubles, the cap leaves room for the padding, and the next wait cannot overflow.
   */
  lemma EscalationBeatsJitter(retryMaxWait: int64, i: nat, before: int64, after: int64)
    requires i > 0 && before <= Backoff(i - 1)
    ensures Escalates(retryMaxWait, i, before, after)
            <==> && i <= 30
                 && MaxRetryWait(retryMaxWait) >= Backoff(i - 1) + JitterWindow(Backoff(i - 1))
                 && BaseWait(retryMaxWait, i, after) <= MAX_SAFE_CAP
  {
    hide Backoff, Escalates;
    EscalatesIff(retryMaxWait, i, before, after);
    BackoffMonotone(0, i - 1);
    BackoffMonotone(i - 1, i);
    BackoffBound(i - 1);
    BackoffBound(i);
  }

  /** With default settings that is so of attempts 1 to 5, and of none after them. */
  lemma DefaultsEscalateFiveTimes(i: nat, before: int64, after: int64)
    requires i > 0 && before <= Backoff(i - 1)
    ensures Escalates(0, i, before, after) <==> i <= 5
  {
    EscalationBeatsJitter(0, i, before, after);
    BackoffMonotone(0, i - 1);
    assert Pow2(4) == 16 && Pow2(5) == 32;
    if i <= 5 { BackoffMonotone(i - 1, 4); } else { BackoffMonotone(5, i - 1); }
  }

  // ----- parseRetryAfter

  /** fmt.Sscanf with %d: blanks, an optional sign, digits that fit an int; anything after them is ignored. */
  function ScanInt(s: bytes): Option<int64> {
    if s == [] then None
    else if s[0] == ' ' || s[0] == '\t' then ScanInt(s[1..])
    else
      var digits := if s[0] == '-' || s[0] == '+' then s[1..] else s;
      var n: int := Value(digits[..DigitRun(digits)]);
      var v: int := if s[0] == '-' then -n else n;
      if DigitRun(digits) > 0 && MIN_INT64 <= v <= MAX_INT64 then Some(v) else None
  }

  function ParseRetryAfter(header: bytes): int64 {
    if header == [] then 0
    else match ScanInt(header)
      case None => 0
      case Some(seconds) => if seconds < 0 then 0 else Wrap64(seconds * SECOND)
  }

  ghost predicate AllBlank(s: bytes) { forall i :: 0 <= i < |s| ==> s[i] in " \t" }

  /** A header as a number with what may surround it: blanks, a sign, digits as far as they go, and any rest. */
  ghost predicate Reads(header: bytes, blanks: bytes, sign: bytes, digits: bytes, rest: bytes) {
    && header == blanks + (sign + (digits + rest))
    && AllBlank(blanks) && sign in {"", "+", "-"}
    && digits != [] && AllDigits(digits) && (rest == [] || !IsDigit(rest[0]))
  }

  lemma {:induction false} ScanSkipsBlanks(blanks: bytes, s: bytes)
    requires AllBlank(blanks)
    ensures ScanInt(blanks + s) == ScanInt(s)
  {
    if blanks == [] {
      assert blanks + s == s;
    } else {
      assert (blanks + s)[1..] == blanks[1..] + s;
      ScanSkipsBlanks(blanks[1..], s);
    }
  }

  /** A header that starts with a number is read as that many seconds, unless it is negative or beyond an int. */
  lemma ParseRetryAfterOfNumber(blanks: bytes, sign: bytes, digits: bytes, rest: bytes)
    requires Reads(blanks + (sign + (digits + rest)), blanks, sign, digits, rest)
    ensures ParseRetryAfter(blanks + (sign + (digits + rest)))
            == if sign == "-" || Value(digits) > MAX_INT64 then 0 else Wrap64(Value(digits) * SECOND)
  {
    var body := digits + rest;
    ScanSkipsBlanks(blanks, sign + body);
    DigitRunOf(digits, rest);
    assert body[0] == digits[0];
    if sign == [] {
      assert sign + body == body;
    } else {
      assert (sign + body)[1..] == body;
    }
  }

  lemma ParseRetryAfterOfFormat(n: nat)
    ensures ParseRetryAfter(Format(n)) == if n > MAX_INT64 then 0 else Wrap64(n * SECOND)
  {
    hide ParseRetryAfter, Value, Format;
    var s := Format(n);
    ValueOfFormat(n);
    assert [] + ([] + (s + [])) == s;
    ParseRetryAfterOfNumber([], [], s, []);
  }

  /**
   * A header of n seconds is read as n seconds exactly when n seconds fit a duration; nothing bounds the
   * multiplication.
   */
  lemma ParseRetryAfterIsExactIff(n: nat)
    ensures ParseRetryAfter(Format(n)) == n * SECOND <==> n <= MAX_INT64 / SECOND
  {
    hide ParseRetryAfter, Format;
    ParseRetryAfterOfFormat(n);
  }

  /** With the largest cap, the first wait can overflow on a header that is itself read exactly. */
  lemma FirstWaitCanOverflow()
    ensures ParseRetryAfter(Format(9223372036)) == 9223372036 * SECOND
    ensures Wait(MAX_INT64, 0, 9223372036 * SECOND, Some(854775808)) == MIN_INT64
  {
    hide ParseRetryAfter, Format;
    ParseRetryAfterIsExactIff(9223372036);
    BackoffMonotone(0, 0);
    assert BaseWait(MAX_INT64, 0, 9223372036 * SECOND) == 9223372036 * SECOND;
  }

  /** The least header the multiplication overflows on, 292 years, is read as a time in the past. */
  lemma OverflowingRetryAfter()
    ensures ParseRetryAfter(Format(9223372037)) == -9223372036709551616
  {
    hide ParseRetryAfter, Format;
    ParseRetryAfterOfFormat(9223372037);
  }

  lemma OneMoreBlank(s: bytes, blanks: bytes, sign: bytes, digits: bytes, rest: bytes)
    requires s != [] && s[0] in " \t" && Reads(s[1..], blanks, sign, digits, rest)
    ensures Reads(s, [s[0]] + blanks, sign, digits, rest)
  {
    assert [s[0]] + (blanks + (sign + (digits + rest))) == ([s[0]] + blanks) + (sign + (digits + rest));
  }

  lemma NumberAtHead(body: bytes) returns (digits: bytes, rest: bytes)
    requires DigitRun(body) > 0
    ensures body == digits + rest && digits != [] && AllDigits(digits) && (rest == [] || !IsDigit(rest[0]))
  {
    var k := DigitRun(body);
    digits, rest := body[..k], body[k..];
  }

  /** What was scanned stands at the head of the text. */
  lemma {:induction false} ScannedIsReadable(s: bytes) returns (blanks: bytes, sign: bytes, digits: bytes, rest: bytes)
    requires ScanInt(s).Some?
    ensures Reads(s, blanks, sign, digits, rest)
  {
    if s[0] in " \t" {
      blanks, sign, digits, rest := ScannedIsReadable(s[1..]);
      OneMoreBlank(s, blanks, sign, digits, rest);
      blanks := [s[0]] + blanks;
    } else {
      blanks, sign := [], if s[0] in "+-" then [s[0]] else [];
      digits, rest := NumberAtHead(s[|sign|..]);
      assert s == sign + s[|sign|..] == [] + (sign + (digits + rest));
    }
  }

  /** Any other header, such as a date, is read as no wait at all. */
  lemma ParseRetryAfterOfText(header: bytes)
    requires !exists blanks, sign, digits, rest :: Reads(header, blanks, sign, digits, rest)
    ensures ParseRetryAfter(header) == 0
  {
    if ScanInt(header).Some? {
      var blanks, sign, digits, rest := ScannedIsReadable(header);
    }
  }
}
