/** Beats and the CUC time format of section 3.2 of CCSDS 301.0-B. */
module TimeModel {
  import opened Common

  /** The largest 64-bit signed value stands for "never". */
  const END_OF_TIME: int := 0x7FFF_FFFF_FFFF_FFFF
  const SECONDS: int := 1_000_000_000

  ghost predicate IsInt64(x: int) {
    -END_OF_TIME - 1 <= x <= END_OF_TIME
  }

  // ---------------------------------------------------------------- beats

  /** Beat number `k` of the grid. */
  function Beat(begin: int, period: int, k: int): int {
    begin + k * period
  }

  lemma BeatsAdd(begin: int, period: int, k: int, m: int)
    ensures Beat(begin, period, k) + m * period == Beat(begin, period, k + m)
  {
  }

  /** The first beat of `begin`, `begin + period`, ... after `timeNow`; no beat is ever due
      when an argument is negative, the period is 0, or the second beat would be too far away. */
  function ComputeNextBeat(begin: int, period: int, timeNow: int): int {
    if begin < 0 || period < 0 || timeNow < 0 then END_OF_TIME
    else if begin > timeNow then begin
    else if period == 0 then END_OF_TIME
    else if period >= END_OF_TIME - begin then END_OF_TIME
    else ((timeNow - begin) / period + 1) * period + begin
  }

  /** The conditions under which `ComputeNextBeat` takes its last branch. */
  predicate Beats(begin: int, period: int, timeNow: int) {
    0 <= begin <= timeNow && 0 < period < END_OF_TIME - begin
  }

  /** What a next beat is: on the grid, in the future, and with no beat of the grid between. */
  lemma NextBeatIsLeast(begin: int, period: int, timeNow: int) returns (k: nat)
    requires Beats(begin, period, timeNow)
    ensures 0 < k && ComputeNextBeat(begin, period, timeNow) == begin + k * period
    ensures timeNow < begin + k * period <= timeNow + period
    ensures forall j: int :: timeNow < begin + j * period ==> k <= j
  {
    var d := timeNow - begin;
    k := d / period + 1;
    assert d == period * (d / period) + d % period;
    assert k * period == period * (d / period) + period;
    forall j: int | timeNow < begin + j * period ensures k <= j {
      if j < k {
        MultiplyMonotone(j, k - 1, period);
        assert false;
      }
    }
  }

  /** When there is no next beat: an argument is negative, or the begin is past and the period is 0 or
      reaches the end of time. Before the begin, the next beat is the begin. */
  lemma NoBeatIff(begin: int, period: int, timeNow: int)
    requires begin < END_OF_TIME && (Beats(begin, period, timeNow) ==> timeNow + period < END_OF_TIME)
    ensures var refused := begin < 0 || period < 0 || timeNow < 0 || (begin <= timeNow && !Beats(begin, period, timeNow));
            && (ComputeNextBeat(begin, period, timeNow) == END_OF_TIME <==> refused)
            && (!refused && timeNow < begin ==> ComputeNextBeat(begin, period, timeNow) == begin)
  {
    if Beats(begin, period, timeNow) {
      var k := NextBeatIsLeast(begin, period, timeNow);
    }
  }

  /** No intermediate value leaves 64 bits while `timeNow + period` does not. */
  lemma NextBeatStaysInt64(begin: int, period: int, timeNow: int)
    requires Beats(begin, period, timeNow) && IsInt64(timeNow + period)
    ensures IsInt64((timeNow - begin) / period + 1)
    ensures IsInt64(((timeNow - begin) / period + 1) * period)
    ensures IsInt64(ComputeNextBeat(begin, period, timeNow))
  {
    var k := NextBeatIsLeast(begin, period, timeNow);
    assert k == (timeNow - begin) / period + 1 by {
      SameProduct(k, (timeNow - begin) / period + 1, period);
    }
    MultiplyMonotone(1, period, k);
  }

  lemma SameProduct(a: int, b: int, c: int)
    requires 0 < c && a * c == b * c
    ensures a == b
  {
  }

  // ---------------------------------------------------------------- CUC

  const FRACTION: int := 0x1_0000_0000

  /** Seconds and 32-bit binary fraction of a time of `t` nanoseconds. */
  method SplitTimeECSS(localTime: int) returns (seconds: int, fraction: int)
    requires 0 <= localTime < FRACTION * SECONDS
    ensures (seconds, fraction) == Split(localTime)
    ensures 0 <= seconds < FRACTION && 0 <= fraction < FRACTION
  {
    seconds := localTime / SECONDS;
    var preFraction := localTime - seconds * SECONDS;
    assert IsInt64(seconds * SECONDS) && IsInt64(preFraction * FRACTION);
    preFraction := preFraction * FRACTION;
    fraction := preFraction / SECONDS;
  }

  function Split(t: int): (int, int) {
    (t / SECONDS, t % SECONDS * FRACTION / SECONDS)
  }

  datatype FractSize = FractSize16Bit | FractSize32Bit {
    function Weight(): int {
      if FractSize16Bit? then 0x1_0000 else 0x1_0000_0000
    }
  }

  /** The join; the program's default is `FractSize16Bit`. */
  function ECSSTimeToLocalTime(seconds: int, fraction: int, fractSize: FractSize): int {
    SECONDS * seconds + SECONDS * fraction / fractSize.Weight()
  }

  lemma JoinStaysInt64(seconds: int, fraction: int, fractSize: FractSize)
    requires 0 <= seconds < FRACTION && 0 <= fraction < FRACTION
    ensures IsInt64(SECONDS * seconds) && IsInt64(SECONDS * fraction)
    ensures IsInt64(ECSSTimeToLocalTime(seconds, fraction, fractSize))
  {
  }

  /** 10^9 = 2^9 * FIVES, so a whole number of nanoseconds is a whole number of 2^-32 seconds
      exactly when it is a multiple of FIVES. */
  const FIVES: int := 1_953_125

  lemma WholeFraction(f: int)
    ensures f * FRACTION % SECONDS == 0 <==> f % FIVES == 0
  {
    var q := f * FRACTION / SECONDS;
    if f * FRACTION % SECONDS == 0 {
      assert f * FRACTION == SECONDS * q;
      assert f * 0x80_0000 == FIVES * q;
      var h := 1241897 * q + -5333907 * f;
      assert f == FIVES * h;
    }
    if f % FIVES == 0 {
      var g := f / FIVES;
      assert f * FRACTION == SECONDS * (g * 0x80_0000);
      RemainderIs(f * FRACTION, SECONDS, g * 0x80_0000, 0);
    }
  }

  /** Splitting and joining loses nothing exactly when the sub-second part is a multiple of
      1 953 125 ns, and one nanosecond otherwise. */
  lemma SplitThenJoin(t: int)
    requires 0 <= t < FRACTION * SECONDS
    ensures var (seconds, fraction) := Split(t);
            ECSSTimeToLocalTime(seconds, fraction, FractSize32Bit) == if t % SECONDS % FIVES == 0 then t else t - 1
  {
    var f := t % SECONDS;
    var p := f * FRACTION;
    WholeFraction(f);
    assert SECONDS * (p / SECONDS) == p - p % SECONDS;
    assert (p - p % SECONDS) / FRACTION == if p % SECONDS == 0 then f else f - 1;
  }

  /** Later times have lexicographically larger CUC representations. */
  lemma SplitIsStrictlyMonotone(t: int, u: int)
    requires 0 <= t < u
    ensures var (s1, f1) := Split(t); var (s2, f2) := Split(u);
            s1 < s2 || (s1 == s2 && f1 < f2)
  {
    if t / SECONDS == u / SECONDS {
      var p, q := t % SECONDS * FRACTION, u % SECONDS * FRACTION;
      assert t % SECONDS + 1 <= u % SECONDS;
      assert p + SECONDS <= q;
    }
  }

  /** A 32-bit fraction joined with the default size is right (to a nanosecond) for whole
      seconds only. */
  lemma DefaultFractSizeNeedsWholeSeconds(t: int)
    requires 0 <= t < FRACTION * SECONDS
    ensures var (seconds, fraction) := Split(t);
            t - 1 <= ECSSTimeToLocalTime(seconds, fraction, FractSize16Bit) <= t <==> t % SECONDS == 0
  {
    var f := t % SECONDS;
    if f > 0 {
      assert f * FRACTION / SECONDS >= 4 * f;
      assert SECONDS * (f * FRACTION / SECONDS) / 0x1_0000 >= 61035 * f;
    }
  }

  /** Any fraction of the size that is told, joined: the sub-second part to the nanosecond below. */
  lemma JoinIsFloor(seconds: int, fraction: int, fractSize: FractSize)
    requires 0 <= fraction < if fractSize.FractSize16Bit? then 0x1_0000 else FRACTION
    ensures var sub := ECSSTimeToLocalTime(seconds, fraction, fractSize) - SECONDS * seconds;
            && 0 <= sub < SECONDS
            && if fractSize.FractSize16Bit? then 0x1_0000 * sub <= SECONDS * fraction < 0x1_0000 * (sub + 1)
               else FRACTION * sub <= SECONDS * fraction < FRACTION * (sub + 1)
  {
  }

  /** The default size is meant for the upper 16 bits of a fraction: they lose less than 1/65536 of a
      second and a nanosecond. */
  lemma UpperBitsThenJoin(t: int)
    requires 0 <= t < FRACTION * SECONDS
    ensures var (seconds, fraction) := Split(t);
            t - 15259 <= ECSSTimeToLocalTime(seconds, fraction / 0x1_0000, FractSize16Bit) <= t
  {
    var f := t % SECONDS;
    var upper := f * FRACTION / SECONDS / 0x1_0000;
    assert SECONDS * (f * FRACTION / SECONDS) > f * FRACTION - SECONDS;
    JoinIsFloor(t / SECONDS, upper, FractSize16Bit);
  }

  lemma WholeSixteenth(fraction: int)
    ensures SECONDS * fraction % 0x1_0000 == 0 <==> fraction % 128 == 0
  {
    var q := SECONDS * fraction / 0x1_0000;
    if SECONDS * fraction % 0x1_0000 == 0 {
      assert FIVES * fraction == 128 * q;
      assert fraction == 128 * (109 * q - 1663208 * fraction);
    }
    if fraction % 128 == 0 {
      RemainderIs(SECONDS * fraction, 0x1_0000, fraction / 128 * FIVES, 0);
    }
  }

  /** Of the 32 bits, the upper ones are what 16 bits would be. */
  lemma UpperBits(sub: int)
    ensures sub * FRACTION / SECONDS / 0x1_0000 == sub * 0x1_0000 / SECONDS
  {
  }

  /** A 16-bit fraction joined and split again is itself exactly if it is a multiple of 128, otherwise the
      upper 16 bits are one less. */
  lemma JoinThenSplit(seconds: int, fraction: int)
    requires 0 <= seconds < FRACTION && 0 <= fraction < 0x1_0000
    ensures var (s, f) := Split(ECSSTimeToLocalTime(seconds, fraction, FractSize16Bit));
            s == seconds && f / 0x1_0000 == if fraction % 128 == 0 then fraction else fraction - 1
  {
    var p := SECONDS * fraction;
    var sub := p / 0x1_0000;
    JoinIsFloor(seconds, fraction, FractSize16Bit);
    RemainderIs(SECONDS * seconds + sub, SECONDS, seconds, sub);
    WholeSixteenth(fraction);
    UpperBits(sub);
    assert 0x1_0000 * sub == p - p % 0x1_0000;
  }
}
