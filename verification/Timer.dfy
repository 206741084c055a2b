/**
 Ticks and timespecs (src/timer.c), in the C code's 64-bit arithmetic.
 */
module Timer {
  import opened Util

  const NS_PER_S: nat := 1_000_000_000
  const TIMESPEC_MAX_NSEC: nat := NS_PER_S - 1
  const I63: nat := 0x8000_0000_0000_0000

  /** struct timespec with signed 64-bit fields. */
  datatype Timespec = Timespec(sec: int, nsec: int)

  /** The largest number of seconds that timer_init allows for a frequency. */
  function MaxSec(freq: nat): nat
    requires 0 < freq
  {
    Min((U64 - 1 - TIMESPEC_MAX_NSEC) / freq, I63 - 1)
  }

  /** It is the largest for which a whole number of seconds and the last nanosecond stay in 64 bits. */
  lemma MaxSecIsLargest(freq: nat, sec: nat)
    requires 0 < freq
    ensures sec <= MaxSec(freq) <==> sec < I63 && sec * freq + 999_999_999 < U64
  {
    var bound := U64 - 1 - TIMESPEC_MAX_NSEC;
    DivNonNegative(bound, freq);
    DivFacts(bound, freq);
    var q: nat := bound / freq;
    if sec <= q {
      MulMono(sec, q, freq);
    } else {
      MulMono(q + 1, sec, freq);
    }
  }

  class Clock {
    var freq: nat
    var maxSec: nat

    /** timer_init, with its assertion as the demand on the frequency. */
    method Init(timerFreq: nat)
      requires IsFrequency(timerFreq)
      modifies this
      ensures freq == timerFreq && maxSec == MaxSec(timerFreq) && 0 < maxSec < I63
    {
      freq := timerFreq;
      var seconds := (U64 - 1 - TIMESPEC_MAX_NSEC) / timerFreq;
      assert seconds > 0;
      maxSec := Min(seconds, I63 - 1);
    }
  }

  /** timespec_valid */
  predicate Valid(ts: Timespec, freq: nat)
    requires 0 < freq
  {
    ts.sec >= 0 && ts.nsec >= 0 && ts.sec <= MaxSec(freq) && ts.nsec <= TIMESPEC_MAX_NSEC
  }

  /** timespec_to_ticks, every operation reduced to 64 bits. */
  function ToTicks(ts: Timespec, freq: nat): nat
    requires 0 < freq && Valid(ts, freq)
  {
    (ts.sec * freq % U64 + ts.nsec * freq % U64 / NS_PER_S) % U64
  }

  /** The same without a word size. */
  function ExactTicks(ts: Timespec, freq: nat): nat
    requires 0 < freq && Valid(ts, freq)
  {
    MulNat(ts.sec, freq);
    MulNat(ts.nsec, freq);
    ts.sec * freq + ts.nsec * freq / NS_PER_S
  }

  lemma MulNat(a: nat, b: nat)
    ensures 0 <= a * b
  {
  }

  lemma MulMono(a: nat, b: nat, c: nat)
    requires a <= b
    ensures a * c <= b * c
  {
  }

  lemma DivMono(a: nat, b: nat, d: nat)
    requires a <= b && 0 < d
    ensures a / d <= b / d
  {
    if b / d < a / d {
      DivFacts(a, d);
      DivFacts(b, d);
      MulMono(b / d + 1, a / d, d);
      assert false;
    }
  }

  lemma DivNonNegative(a: nat, d: nat)
    requires 0 < d
    ensures 0 <= a / d
  {
  }

  lemma DivFacts(a: nat, d: nat)
    requires 0 < d
    ensures a / d * d <= a < (a / d + 1) * d
  {
  }

  /** No step of the conversion overflows. */
  predicate NoOverflow(ts: Timespec, freq: nat)
    requires 0 < freq && Valid(ts, freq)
  {
    ts.sec * freq < U64 && ts.nsec * freq < U64 && ExactTicks(ts, freq) < U64
  }

  /** The largest valid timespec. */
  function Largest(freq: nat): Timespec
    requires 0 < freq
  {
    Timespec(MaxSec(freq), TIMESPEC_MAX_NSEC)
  }

  lemma TicksAreMonotone(a: Timespec, b: Timespec, freq: nat)
    requires 0 < freq && Valid(a, freq) && Valid(b, freq) && a.sec <= b.sec && a.nsec <= b.nsec
    ensures a.sec * freq <= b.sec * freq && a.nsec * freq <= b.nsec * freq
    ensures ExactTicks(a, freq) <= ExactTicks(b, freq)
  {
    MulMono(a.sec, b.sec, freq);
    MulMono(a.nsec, b.nsec, freq);
    DivMono(a.nsec * freq, b.nsec * freq, NS_PER_S);
  }

  /** The conversion never overflows on valid timespecs if and only if it does not on the largest one. */
  lemma NeverOverflowsIff(freq: nat)
    requires 0 < freq
    ensures (forall ts :: Valid(ts, freq) ==> NoOverflow(ts, freq)) <==> NoOverflow(Largest(freq), freq)
  {
    forall ts | Valid(ts, freq) && NoOverflow(Largest(freq), freq)
      ensures NoOverflow(ts, freq)
    {
      TicksAreMonotone(ts, Largest(freq), freq);
    }
    assert Valid(Largest(freq), freq);
  }

  lemma SecondsFit(sec: nat, freq: nat)
    requires 0 < freq && sec <= MaxSec(freq)
    ensures 0 <= sec * freq <= U64 - 1 - TIMESPEC_MAX_NSEC
  {
    var bound := U64 - 1 - TIMESPEC_MAX_NSEC;
    DivFacts(bound, freq);
    MulMono(sec, bound / freq, freq);
  }

  lemma FractionFits(nsec: nat, freq: nat)
    requires freq <= NS_PER_S && nsec <= TIMESPEC_MAX_NSEC
    ensures 0 <= nsec * freq <= TIMESPEC_MAX_NSEC * NS_PER_S < U64
  {
    MulMono(nsec, TIMESPEC_MAX_NSEC, freq);
    MulMono(freq, NS_PER_S, TIMESPEC_MAX_NSEC);
  }

  lemma SmallFraction(x: nat)
    requires x <= TIMESPEC_MAX_NSEC * NS_PER_S
    ensures x / NS_PER_S <= TIMESPEC_MAX_NSEC
  {
  }

  lemma NoReduction(a: nat, x: nat)
    requires a <= U64 - 1 - TIMESPEC_MAX_NSEC && x < U64 && x / NS_PER_S <= TIMESPEC_MAX_NSEC
    ensures (a % U64 + x % U64 / NS_PER_S) % U64 == a + x / NS_PER_S < U64
  {
  }

  /** For frequencies up to 1 GHz there is no overflow, so the 64-bit result is exact. */
  lemma NoOverflowUpToGigahertz(ts: Timespec, freq: nat)
    requires 0 < freq <= NS_PER_S && Valid(ts, freq)
    ensures NoOverflow(ts, freq) && ToTicks(ts, freq) == ExactTicks(ts, freq)
  {
    SecondsFit(ts.sec, freq);
    FractionFits(ts.nsec, freq);
    SmallFraction(ts.nsec * freq);
    NoReduction(ts.sec * freq, ts.nsec * freq);
  }

  lemma FractionBelowSecond(nsec: nat, freq: nat)
    requires 0 < freq && nsec < NS_PER_S
    ensures 0 <= nsec * freq && nsec * freq / NS_PER_S < freq
  {
    MulMono(nsec, NS_PER_S - 1, freq);
    MulNat(nsec, freq);
    QuotientBelow(nsec * freq, freq);
  }

  lemma QuotientBelow(x: nat, freq: nat)
    requires x <= (NS_PER_S - 1) * freq && 0 < freq
    ensures x / NS_PER_S < freq
  {
  }

  /** The exact ticks are the whole ticks that have passed at that point in time. */
  lemma TicksAreWhole(ts: Timespec, freq: nat)
    requires 0 < freq && Valid(ts, freq) && NoOverflow(ts, freq)
    ensures var ns := ts.sec * 1_000_000_000 + ts.nsec;
            ToTicks(ts, freq) * 1_000_000_000 <= ns * freq < (ToTicks(ts, freq) + 1) * 1_000_000_000
  {
    hide ToTicks, NoOverflow;
    NoOverflowIsExact(ts, freq);
    MulNat(ts.nsec, freq);
    var x := ts.nsec * freq;
    DivFacts(x, NS_PER_S);
    SecondsInNanoseconds(ts.sec, ts.nsec, freq);
  }

  lemma SecondsInNanoseconds(sec: int, nsec: int, freq: nat)
    ensures (sec * 1_000_000_000 + nsec) * freq == sec * freq * 1_000_000_000 + nsec * freq
  {
  }

  /** Point in time a is not after point b. */
  predicate NotAfter(a: Timespec, b: Timespec) {
    a.sec < b.sec || (a.sec == b.sec && a.nsec <= b.nsec)
  }

  lemma NoOverflowIsExact(ts: Timespec, freq: nat)
    requires 0 < freq && Valid(ts, freq) && NoOverflow(ts, freq)
    ensures ToTicks(ts, freq) == ExactTicks(ts, freq)
  {
    var x: nat, y: nat := ts.sec * freq, ts.nsec * freq;
    SumFits(x, y);
  }

  lemma SumFits(x: nat, y: nat)
    requires x < U64 && y < U64 && x + y / NS_PER_S < U64
    ensures (x % U64 + y % U64 / NS_PER_S) % U64 == x + y / NS_PER_S
  {
  }

  /** timespec_to_ticks is monotone in the order of points in time for every frequency without overflow. */
  lemma ToTicksIsMonotone(a: Timespec, b: Timespec, freq: nat)
    requires 0 < freq && Valid(a, freq) && Valid(b, freq) && NotAfter(a, b)
    requires NoOverflow(Largest(freq), freq)
    ensures ToTicks(a, freq) <= ToTicks(b, freq)
  {
    hide ToTicks, Valid, ExactTicks, NoOverflow, Largest;
    NeverOverflowsIff(freq);
    NoOverflowIsExact(a, freq);
    NoOverflowIsExact(b, freq);
    ExactIsMonotone(a, b, freq);
  }

  /** That holds for all frequencies up to 1 GHz. */
  lemma LargestFitsUpToGigahertz(freq: nat)
    requires 0 < freq <= NS_PER_S
    ensures NoOverflow(Largest(freq), freq)
  {
    hide NoOverflow;
    NoOverflowUpToGigahertz(Largest(freq), freq);
  }

  /** What timer_init asserts about the frequency. */
  predicate IsFrequency(freq: nat) {
    0 < freq && (U64 - 1 - TIMESPEC_MAX_NSEC) / freq > 0
  }

  ghost predicate Monotone(freq: nat)
    requires 0 < freq
  {
    forall a, b :: Valid(a, freq) && Valid(b, freq) && NotAfter(a, b) ==> ToTicks(a, freq) <= ToTicks(b, freq)
  }

  /** For every frequency that timer_init accepts, an overflow on the largest valid timespec breaks monotonicity. */
  lemma MonotoneIff(freq: nat)
    requires IsFrequency(freq)
    ensures Monotone(freq) <==> NoOverflow(Largest(freq), freq)
  {
    hide ToTicks, Valid, NoOverflow;
    LargestIsValid(freq);
    if NoOverflow(Largest(freq), freq) {
      forall a, b | Valid(a, freq) && Valid(b, freq) && NotAfter(a, b)
        ensures ToTicks(a, freq) <= ToTicks(b, freq)
      {
        ToTicksIsMonotone(a, b, freq);
      }
    } else if TIMESPEC_MAX_NSEC * freq < U64 {
      var start := Timespec(MaxSec(freq), 0);
      LargestWraps(freq);
      assert Valid(start, freq) && NotAfter(start, Largest(freq));
      assert ToTicks(start, freq) > ToTicks(Largest(freq), freq);
    } else {
      var n := FractionWraps(freq);
      var a, b := Timespec(0, n), Timespec(0, n + 1);
      assert Valid(a, freq) && Valid(b, freq) && NotAfter(a, b) && ToTicks(a, freq) > ToTicks(b, freq);
    }
  }

  /** Where the fraction can overflow, some nanosecond has more ticks than the next one. */
  lemma FractionWraps(freq: nat) returns (n: nat)
    requires IsFrequency(freq) && TIMESPEC_MAX_NSEC * freq >= U64
    ensures Valid(Timespec(0, n), freq) && Valid(Timespec(0, n + 1), freq)
    ensures ToTicks(Timespec(0, n), freq) > ToTicks(Timespec(0, n + 1), freq)
  {
    DivNonNegative(U64 - 1, freq);
    DivFacts(U64 - 1, freq);
    n := (U64 - 1) / freq;
    if TIMESPEC_MAX_NSEC <= n {
      MulMono(TIMESPEC_MAX_NSEC, n, freq);
      assert false;
    }
    FrequencyBound(freq);
    MulNat(n, freq);
    var x: nat := n * freq;
    assert (n + 1) * freq == x + freq;
    assert 0 * freq == 0;
    FractionDrops(x, freq);
    MaxSecIsPositive(freq);
  }

  lemma FrequencyBound(freq: nat)
    requires IsFrequency(freq)
    ensures freq <= U64 - 1 - TIMESPEC_MAX_NSEC
  {
    var q: nat := (U64 - 1 - TIMESPEC_MAX_NSEC) / freq;
    DivFacts(U64 - 1 - TIMESPEC_MAX_NSEC, freq);
    MulMono(1, q, freq);
  }

  lemma MaxSecIsPositive(freq: nat)
    requires IsFrequency(freq)
    ensures 0 < MaxSec(freq)
  {
  }

  lemma FractionDrops(x: nat, freq: nat)
    requires x < U64 <= x + freq && freq <= U64 - 1 - TIMESPEC_MAX_NSEC
    ensures (0 % U64 + x % U64 / NS_PER_S) % U64 > (0 % U64 + (x + freq) % U64 / NS_PER_S) % U64
  {
    var y := x + freq - U64;
    assert (x + freq) % U64 == y;
    assert y + NS_PER_S <= x;
    assert y / NS_PER_S < x / NS_PER_S;
  }

  /** At 2 GHz the start of the largest valid second has more ticks than its end. */
  lemma OverflowsExample()
    ensures var freq, a, b := 2_000_000_000, Timespec(9_223_372_036, 0), Timespec(9_223_372_036, 999_999_999);
            IsFrequency(freq) && !NoOverflow(Largest(freq), freq) && Valid(a, freq) && Valid(b, freq) &&
            NotAfter(a, b) && ToTicks(a, freq) > ToTicks(b, freq)
  {
  }

  lemma LargestIsValid(freq: nat)
    requires 0 < freq
    ensures Valid(Largest(freq), freq)
  {
  }

  lemma LargestWraps(freq: nat)
    requires 0 < freq && TIMESPEC_MAX_NSEC * freq < U64 && !NoOverflow(Largest(freq), freq)
    ensures Valid(Timespec(MaxSec(freq), 0), freq) && Valid(Largest(freq), freq)
    ensures ToTicks(Timespec(MaxSec(freq), 0), freq) > ToTicks(Largest(freq), freq)
  {
    SecondsFit(MaxSec(freq), freq);
    var x: nat, y: nat := MaxSec(freq) * freq, TIMESPEC_MAX_NSEC * freq;
    assert 0 * freq == 0;
    SumWraps(x, y);
  }

  lemma SumWraps(x: nat, y: nat)
    requires x < U64 && y < U64 && x + y / NS_PER_S >= U64
    ensures (x % U64 + y % U64 / NS_PER_S) % U64 < x == (x % U64 + 0 % U64 / NS_PER_S) % U64
  {
    var q := y / NS_PER_S;
    assert 0 <= q < U64;
    assert (x + q) % U64 == x + q - U64;
  }

  lemma ExactIsMonotone(a: Timespec, b: Timespec, freq: nat)
    requires 0 < freq && Valid(a, freq) && Valid(b, freq) && NotAfter(a, b)
    ensures ExactTicks(a, freq) <= ExactTicks(b, freq)
  {
    if a.sec == b.sec {
      TicksAreMonotone(a, b, freq);
    } else {
      var next := a.sec + 1;
      MulMono(next, b.sec, freq);
      FractionBelowSecond(a.nsec, freq);
      MulNat(b.nsec, freq);
      assert next * freq == a.sec * freq + freq;
    }
  }

  // ----- ticks_to_timespec -----

  /** C division and remainder of signed integers, which truncate toward zero. */
  function TruncDiv(a: int, b: nat): int
    requires 0 < b
  {
    if a >= 0 then a / b else -((-a) / b)
  }

  function TruncMod(a: int, b: nat): int
    requires 0 < b
  {
    a - TruncDiv(a, b) * b
  }

  /** The cast of an unsigned tick count to int64_t. */
  function Signed(ticks: nat): int
    requires ticks < U64
  {
    if ticks < I63 then ticks else ticks - U64
  }

  /** ticks_to_timespec without its final assertion. */
  function FromTicks(ticks: nat, freq: nat): Timespec
    requires ticks < U64 && 0 < freq
  {
    var t := Signed(ticks);
    Timespec(TruncDiv(t, freq), TruncDiv(TruncMod(t, freq) * NS_PER_S, freq))
  }

  lemma RemainderFacts(t: nat, freq: nat)
    requires 0 < freq
    ensures TruncMod(t, freq) == t % freq < freq
    ensures t == t / freq * freq + t % freq
  {
  }

  lemma NanosecondsBelowSecond(r: nat, freq: nat)
    requires r < freq
    ensures 0 <= r * NS_PER_S / freq <= TIMESPEC_MAX_NSEC
  {
    var x, q := r * NS_PER_S, r * NS_PER_S / freq;
    DivFacts(x, freq);
    if q >= NS_PER_S {
      MulMono(NS_PER_S, q, freq);
      assert false;
    }
  }

  lemma SecondsBelowMax(t: nat, freq: nat)
    requires t < I63 && 0 < freq
    ensures t / freq <= MaxSec(freq)
  {
    DivMono(t, U64 - 1 - TIMESPEC_MAX_NSEC, freq);
    DivAtMost(t, freq);
  }

  lemma DivAtMost(t: nat, freq: nat)
    requires 0 < freq
    ensures t / freq <= t
  {
    DivNonNegative(t, freq);
    DivFacts(t, freq);
    var q: nat := t / freq;
    MulMono(1, freq, q);
  }

  /**
   The highest frequency, about 9.2 GHz, for which the signed product of ticks_to_timespec stays
   in 64 bits; beyond it C leaves the result undefined.
   */
  const MAX_FREQ: nat := (I63 - 1) / NS_PER_S

  lemma ProductFits(r: int, freq: nat)
    requires 0 - freq < r < freq <= MAX_FREQ
    ensures 0 - I63 < r * NS_PER_S < I63
  {
  }

  /** A negative tick count gives a negative second or nanosecond count, unless it rounds to zero. */
  lemma NegativeTicks(k: nat, freq: nat)
    requires 0 < k && 0 < freq
    ensures TruncDiv(0 - k, freq) == 0 && TruncDiv(TruncMod(0 - k, freq) * NS_PER_S, freq) == 0
       <==> k * NS_PER_S < freq
    ensures TruncDiv(0 - k, freq) < 0 || TruncDiv(TruncMod(0 - k, freq) * NS_PER_S, freq) <= 0
    ensures TruncDiv(0 - k, freq) <= 0
  {
    var x := k * NS_PER_S;
    DivNonNegative(k, freq);
    DivNonNegative(x, freq);
    ZeroQuotientIff(k, freq);
    ZeroQuotientIff(x, freq);
    if k < freq {
      NegatedProduct(k);
    }
  }

  lemma ZeroQuotientIff(a: nat, d: nat)
    requires 0 < d
    ensures a / d == 0 <==> a < d
  {
    DivNonNegative(a, d);
    DivFacts(a, d);
    if a / d > 0 {
      MulMono(1, a / d, d);
    }
  }

  lemma NegatedProduct(k: nat)
    ensures (0 - k) * NS_PER_S == 0 - k * NS_PER_S
  {
  }

  /**
   ticks_to_timespec yields a valid timespec, as it asserts, if and only if the ticks are below 2^63 or
   so close to 2^64 that the negative time they stand for rounds to zero.
   */
  lemma FromTicksIsValidIff(ticks: nat, freq: nat)
    requires ticks < U64 && 0 < freq <= MAX_FREQ
    ensures Valid(FromTicks(ticks, freq), freq) <==> ticks < I63 || (U64 - ticks) * NS_PER_S < freq
  {
    hide TruncDiv, TruncMod, MaxSec;
    if ticks < I63 {
      RemainderFacts(ticks, freq);
      NanosecondsBelowSecond(ticks % freq, freq);
      SecondsBelowMax(ticks, freq);
      NonNegativeDiv(ticks, freq);
      NonNegativeDiv(ticks % freq * NS_PER_S, freq);
    } else {
      NegativeTicks(U64 - ticks, freq);
      MaxSecIsNat(freq);
    }
  }

  lemma MaxSecIsNat(freq: nat)
    requires 0 < freq
    ensures 0 <= MaxSec(freq)
  {
  }

  /** Up to 1 GHz nothing rounds to zero. */
  lemma FromTicksIsValidUpToGigahertz(ticks: nat, freq: nat)
    requires ticks < U64 && 0 < freq <= NS_PER_S
    ensures Valid(FromTicks(ticks, freq), freq) <==> ticks < I63
  {
    hide FromTicks, Valid;
    FromTicksIsValidIff(ticks, freq);
  }

  lemma NonNegativeDiv(a: nat, b: nat)
    requires 0 < b
    ensures TruncDiv(a, b) == a / b >= 0
  {
    DivNonNegative(a, b);
  }

  /** The timespec of a tick count is the whole number of nanoseconds that have passed, in seconds and the rest. */
  lemma TimeIsWhole(ticks: nat, freq: nat)
    requires ticks < I63 && 0 < freq
    ensures var ts := FromTicks(ticks, freq);
            var ns := ts.sec * 1_000_000_000 + ts.nsec;
            0 <= ts.sec && 0 <= ts.nsec < 1_000_000_000 && ns * freq <= ticks * 1_000_000_000 < (ns + 1) * freq
  {
    hide TruncDiv, TruncMod;
    RemainderFacts(ticks, freq);
    NonNegativeDiv(ticks, freq);
    NonNegativeDiv(ticks % freq * NS_PER_S, freq);
    NanosecondsBelowSecond(ticks % freq, freq);
    var sec, r := ticks / freq, ticks % freq;
    var x := r * NS_PER_S;
    DivFacts(x, freq);
    SecondsInNanoseconds(sec, x / freq, freq);
    assert ticks * NS_PER_S == sec * freq * NS_PER_S + x;
  }

  /** The ticks that a round trip loses: the nanoseconds cut off, rounded up to ticks. */
  function Loss(ticks: nat, freq: nat): nat
    requires 0 < freq
  {
    var r: nat := ticks % freq;
    var cut: nat := r * NS_PER_S % freq;
    (cut + NS_PER_S - 1) / NS_PER_S
  }

  /** One second's worth of the round trip. */
  lemma FractionRoundTrip(r: nat, freq: nat)
    requires r < freq
    ensures var n := r * NS_PER_S / freq;
            var cut := r * NS_PER_S % freq;
            0 <= n && 0 <= n * freq <= r * NS_PER_S && n * freq / NS_PER_S == r - (cut + NS_PER_S - 1) / NS_PER_S
  {
    var x := r * NS_PER_S;
    var n, cut := x / freq, x % freq;
    NanosecondsBelowSecond(r, freq);
    RemainderFacts(x, freq);
    MulNat(n, freq);
    assert n * freq == x - cut;
    QuotientOfDifference(r, cut);
  }

  lemma QuotientOfDifference(r: nat, e: nat)
    requires e <= r * NS_PER_S
    ensures (r * NS_PER_S - e) / NS_PER_S == r - (e + NS_PER_S - 1) / NS_PER_S
  {
  }

  /**
   Converting ticks to a timespec and back never overflows and loses exactly the ticks that the
   rounding to nanoseconds cuts off.
   */
  lemma TicksRoundTrip(ticks: nat, freq: nat)
    requires ticks < I63 && 0 < freq <= MAX_FREQ
    ensures Valid(FromTicks(ticks, freq), freq)
    ensures ToTicks(FromTicks(ticks, freq), freq) == ticks - Loss(ticks, freq)
  {
    hide ToTicks, Valid, TruncDiv, TruncMod;
    FromTicksIsValidIff(ticks, freq);
    RemainderFacts(ticks, freq);
    NonNegativeDiv(ticks, freq);
    NonNegativeDiv(ticks % freq * NS_PER_S, freq);
    FractionRoundTrip(ticks % freq, freq);
    ProductFits(ticks % freq, freq);
    var ts := FromTicks(ticks, freq);
    assert ts == Timespec(ticks / freq, ticks % freq * NS_PER_S / freq);
    MulNat(ts.sec, freq);
    assert ts.sec * freq + ticks % freq == ticks;
    NoOverflowIsExact(ts, freq);
  }

  /** Up to 1 GHz at most one tick is lost, and none exactly when the fraction is a whole number of nanoseconds. */
  lemma LossUpToGigahertz(ticks: nat, freq: nat)
    requires 0 < freq <= NS_PER_S
    ensures Loss(ticks, freq) == if ticks % freq * NS_PER_S % freq == 0 then 0 else 1
  {
    RemainderFacts(ticks % freq * NS_PER_S, freq);
  }

  // ----- timer_set_and_wait up to the wait, and the time it reports as remaining -----

  /** The tick count to wait for; the addition wraps around. */
  function Deadline(relative: bool, ticks: nat, now: nat): nat {
    if relative then (ticks + now) % U64 else ticks
  }

  /** A relative deadline is not in the future if and only if the ticks are none or the addition wraps around. */
  lemma RelativeReturnsAtOnceIff(ticks: nat, now: nat)
    requires ticks < U64 && now < U64
    ensures Deadline(true, ticks, now) <= now <==> ticks == 0 || ticks + now >= U64
  {
  }

  /** The same in terms of the request, without a word size. */
  lemma RequestReturnsAtOnceIff(req: Timespec, now: nat, freq: nat)
    requires 0 < freq && Valid(req, freq) && now < U64 && NoOverflow(req, freq)
    ensures Deadline(true, ToTicks(req, freq), now) <= now <==>
            (req.sec == 0 && req.nsec * freq < NS_PER_S) || ExactTicks(req, freq) + now >= U64
    ensures Deadline(false, ToTicks(req, freq), now) <= now <==> ExactTicks(req, freq) <= now
  {
    hide Valid, NoOverflow;
    NoOverflowIsExact(req, freq);
    RelativeReturnsAtOnceIff(ToTicks(req, freq), now);
    NoTicksIff(req, freq);
  }

  lemma NoTicksIff(req: Timespec, freq: nat)
    requires 0 < freq && Valid(req, freq)
    ensures ExactTicks(req, freq) == 0 <==> req.sec == 0 && req.nsec * freq < NS_PER_S
  {
    MulNat(req.sec, freq);
    MulNat(req.nsec, freq);
    if req.sec > 0 {
      MulMono(1, req.sec, freq);
    }
  }

  /** A valid request of ten thousand million seconds that returns at once. */
  lemma ReturnsAtOnceExample()
    ensures var req, now := Timespec(10_000_000_000, 0), 9_000_000_000 * NS_PER_S;
            Valid(req, NS_PER_S) && now < U64 && Deadline(true, ToTicks(req, NS_PER_S), now) <= now &&
            ToTicks(req, NS_PER_S) != 0
  {
  }

  /** The ticks left when the wait ends. */
  function Remaining(timeout: nat, now: nat): nat {
    if timeout > now then timeout - now else 0
  }

  /** A valid request that is interrupted early leaves so many ticks that the result is not valid. */
  lemma RemainingIsInvalidExample()
    ensures var req := Timespec(10_000_000_000, 0);
            Valid(req, NS_PER_S) &&
            var ticks := Remaining(Deadline(true, ToTicks(req, NS_PER_S), 0), 0);
            I63 <= ticks < U64 && !Valid(FromTicks(ticks, NS_PER_S), NS_PER_S)
  {
    var req := Timespec(10_000_000_000, 0);
    assert Valid(req, NS_PER_S) && ToTicks(req, NS_PER_S) == 10_000_000_000 * NS_PER_S;
    FromTicksIsValidUpToGigahertz(ToTicks(req, NS_PER_S), NS_PER_S);
  }
}
