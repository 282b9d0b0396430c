/**
 * The unit encoders of the register engine: `log2_u64`, `to_msr_power`,
 * `to_msr_time` and `from_msr_time`.
 *
 * The power and time units the processor reports are powers of two,
 * 2^-e watts and 2^-e seconds, so a unit is represented by its exponent e.
 * Watts and seconds are exact reals; `.Floor` plays the part of the C
 * casts from a non-negative `double` to `uint64_t`.
 */
module Units {
  import opened Arith

  // ---------------------------------------------------------------------
  // log2_u64

  /** floor(log2(n)), and 0 for n = 0 (as `log2_u64` documents). */
  function FloorLog2(n: nat): nat
  {
    if n <= 1 then 0 else 1 + FloorLog2(n / 2)
  }

  lemma {:induction false} FloorLog2Bounds(n: nat)
    requires n > 0
    ensures Pow2(FloorLog2(n)) <= n < Pow2(FloorLog2(n) + 1)
  {
    if n > 1 {
      FloorLog2Bounds(n / 2);
      var r := FloorLog2(n / 2);
      assert Pow2(r + 2) == 2 * Pow2(r + 1);
    }
  }

  /** The bounds determine the logarithm. */
  lemma {:induction false} FloorLog2Unique(n: nat, r: nat)
    requires Pow2(r) <= n < Pow2(r + 1)
    ensures FloorLog2(n) == r
  {
    if r > 0 {
      assert Pow2(r) == 2 * Pow2(r - 1);
      FloorLog2Unique(n / 2, r - 1);
    }
  }

  /**
   * `log2_u64`: shifts y right until nothing is left, counting the shifts.
   * The count is the position of the highest set bit.
   */
  method Log2U64(y: u64) returns (r: nat)
    ensures r == FloorLog2(y)
    ensures y == 0 ==> r == 0
    ensures y > 0 ==> Pow2(r) <= y < Pow2(r + 1)
    ensures r < 64
  {
    r := 0;
    var v: nat := y / 2;
    while v != 0
      invariant v == 0 ==> FloorLog2(y) == r
      invariant v > 0 ==> FloorLog2(y) == r + 1 + FloorLog2(v)
      decreases v
    {
      r := r + 1;
      v := v / 2;
    }
    if y > 0 {
      FloorLog2Bounds(y);
      if r >= 64 {
        Pow2Mono(64, r);
        Pow2Literal64();
        assert false;
      }
    }
  }

  // ---------------------------------------------------------------------
  // Real-number helpers

  lemma DivLe(a: real, b: real, d: real)
    requires d > 0.0 && a <= b * d
    ensures a / d <= b
  {
  }

  lemma LtDiv(b: real, a: real, d: real)
    requires d > 0.0 && b * d < a
    ensures b < a / d
  {
  }

  lemma DivMulCancel(a: real, d: real)
    requires d > 0.0
    ensures (a / d) * d == a
  {
  }

  lemma DivMono(a: real, b: real, d: real)
    requires d > 0.0 && a <= b
    ensures a / d <= b / d
  {
  }

  lemma DivMonoStrict(a: real, b: real, d: real)
    requires d > 0.0 && a < b
    ensures a / d < b / d
  {
  }

  lemma MulNonNegReal(a: real, b: real)
    requires a >= 0.0 && b >= 0.0
    ensures a * b >= 0.0
  {
  }

  // ---------------------------------------------------------------------
  // Power

  /** What `to_msr_power` clamps to: the largest value of a 15-bit field. */
  const MsrPowerMax: nat := 0x7FFF

  /** Watts denoted by a raw power field holding `raw` units of 2^-e W. */
  function PowerWatts(raw: nat, e: nat): real
  {
    raw as real / Pow2(e) as real
  }

  /**
   * `to_msr_power`: the number of power units in `watts`, rounded down and
   * clamped to 15 bits. The result is the largest raw value that does not
   * exceed the request, unless the request is beyond what 15 bits hold.
   */
  function ToMsrPower(watts: real, e: nat): (p: nat)
    requires watts >= 0.0
    ensures p <= MsrPowerMax
    ensures PowerWatts(p, e) <= watts
    ensures p == MsrPowerMax || watts < PowerWatts(p + 1, e)
    ensures (watts * Pow2(e) as real).Floor <= MsrPowerMax ==> p == (watts * Pow2(e) as real).Floor
  {
    var E := Pow2(e) as real;
    var raw := (watts * E).Floor;
    ClampedFloor(watts, E, raw);
    var p := if raw > MsrPowerMax then MsrPowerMax else raw;
    assert raw == (watts * Pow2(e) as real).Floor;
    assert raw <= MsrPowerMax ==> p == raw;
    p
  }

  /** Clamping the whole number of units of size 1/d in x to 15 bits keeps it at most x. */
  lemma ClampedFloor(x: real, d: real, raw: int)
    requires x >= 0.0 && d > 0.0 && raw == (x * d).Floor
    ensures raw >= 0
    ensures var p := if raw > MsrPowerMax then MsrPowerMax else raw;
      p as real / d <= x && (p == MsrPowerMax || x < (p + 1) as real / d)
  {
    FloorBrackets(x, d);
    var p := if raw > MsrPowerMax then MsrPowerMax else raw;
    DivMono(p as real, raw as real, d);
  }

  /** The whole number of units of size 1/d in x brackets x. */
  lemma FloorBrackets(x: real, d: real)
    requires x >= 0.0 && d > 0.0
    ensures (x * d).Floor >= 0
    ensures (x * d).Floor as real / d <= x < ((x * d).Floor + 1) as real / d
  {
    MulNonNegReal(x, d);
    DivLe((x * d).Floor as real, x, d);
    LtDiv(x, ((x * d).Floor + 1) as real, d);
  }

  /** A raw power value that fits 15 bits survives decoding and encoding. */
  lemma PowerRoundTrip(p: nat, e: nat)
    requires p <= MsrPowerMax
    ensures ToMsrPower(PowerWatts(p, e), e) == p
  {
    DivMulCancel(p as real, Pow2(e) as real);
  }

  // ---------------------------------------------------------------------
  // Time

  /** Bounds `to_msr_time` clamps the window to, in time units. */
  const MsrTimeMin: real := 1.0
  const MsrTimeMax: real := 4294967295.0

  /** `seconds / time_units`: the window measured in time units of 2^-e s. */
  function Ticks(seconds: real, e: nat): real
  {
    seconds * Pow2(e) as real
  }

  /** The clamping step of `to_msr_time`. */
  function ClampTicks(t: real): (c: real)
    ensures MsrTimeMin <= c <= MsrTimeMax
    ensures MsrTimeMin <= t <= MsrTimeMax ==> c == t
    ensures t < MsrTimeMin ==> c == MsrTimeMin
    ensures t > MsrTimeMax ==> c == MsrTimeMax
  {
    if t < MsrTimeMin then MsrTimeMin else if t > MsrTimeMax then MsrTimeMax else t
  }

  /** 2^y * (1 + f/4) time units, the window a (Y, F) pair denotes. */
  function WindowTicks(y: nat, f: nat): (t: real)
    ensures t > 0.0
  {
    (Pow2(y) * (4 + f)) as real / 4.0
  }

  /** `from_msr_time`: the window of a (Y, F) pair in seconds, for time unit 2^-e s. */
  function FromMsrTime(y: nat, f: nat, e: nat): (s: real)
    ensures s > 0.0
  {
    WindowTicks(y, f) / Pow2(e) as real
  }

  /** Y of `to_msr_time` for a clamped window of t units: the highest bit of its whole part. */
  function TimeY(t: real): nat
    requires t >= 1.0
  {
    FloorLog2(t.Floor)
  }

  /** F of `to_msr_time`: four times the window in units of 2^Y, less 4. */
  function TimeF(t: real): int
    requires t >= 1.0
  {
    (4.0 * t).Floor / Pow2(TimeY(t)) - 4
  }

  /** The packing `(y & 0x1F) | ((f & 0x3) << 5)` of `to_msr_time`, with f's mask taken mod 4. */
  function PackTime(y: nat, f: int): (code: nat)
    ensures code < 128
  {
    y % 32 + (f % 4) * 32
  }

  /**
   * `to_msr_time` as a value: the 7-bit code `Y | F << 5` of `seconds`,
   * after clamping the window into [1, 0xFFFFFFFF] time units.
   */
  function TimeCode(seconds: real, e: nat): (code: nat)
    requires seconds > 0.0
    ensures code < 128
  {
    var t := ClampTicks(Ticks(seconds, e));
    // `f & 0x3` of the uint64_t difference is f mod 4, wrapped or not
    PackTime(TimeY(t), TimeF(t))
  }

  /** For a window of 4P..8P quarter units the quotient by P is 4..7. */
  lemma QuarterQuotient(n: int, m: int, P: int)
    requires P > 0 && P <= n < 2 * P && 4 * n <= m <= 4 * n + 3
    ensures 4 <= m / P < 8
    ensures P * (m / P) <= m < P * (m / P + 1)
  {
    var q := m / P;
    assert m == q * P + m % P;
    if q < 4 {
      MulMonoLeft(q + 1, 4, P);
    }
    if q >= 8 {
      MulMonoLeft(8, q, P);
    }
  }

  /** Y and F of a clamped window are in range, and bracket the window. */
  lemma TimeFieldsOf(t: real)
    requires MsrTimeMin <= t <= MsrTimeMax
    ensures TimeY(t) < 32 && 0 <= TimeF(t) <= 3
    ensures WindowTicks(TimeY(t), TimeF(t)) <= t < WindowTicks(TimeY(t), TimeF(t) + 1)
  {
    var n := t.Floor;
    var y := TimeY(t);
    var P := Pow2(y);
    var m := (4.0 * t).Floor;
    FloorLog2Bounds(n);
    assert Pow2(y + 1) == 2 * P;
    QuarterQuotient(n, m, P);
    var q := m / P;
    if y >= 32 {
      Pow2Mono(32, y);
      Pow2Literal32();
      assert false;
    }
    assert (P * q) as real <= m as real;
    assert (m + 1) as real <= (P * (q + 1)) as real;
  }

  /** Packing Y and F into the code loses nothing while they are in range. */
  lemma CodeDigits(code: int, y: int, f: int)
    requires 0 <= y < 32 && 0 <= f <= 3 && code == PackTime(y, f)
    ensures code % 32 == y && code / 32 == f
    ensures code == y + 32 * f
  {
    ModOfSmall(y, 32);
    ModOfSmall(f, 4);
    DivModUnique(y + f * 32, 32, f, y);
  }

  /**
   * The window the code denotes never exceeds the clamped request, and the
   * window with the next F digit does. `TimeFieldsOf` bounds the digits:
   * Y is below 32 and F is in 0..3.
   */
  lemma TimeCodeBrackets(seconds: real, e: nat)
    requires seconds > 0.0
    ensures FromMsrTime(TimeCode(seconds, e) % 32, TimeCode(seconds, e) / 32, e)
            <= ClampTicks(Ticks(seconds, e)) / Pow2(e) as real
    ensures ClampTicks(Ticks(seconds, e)) / Pow2(e) as real
            < FromMsrTime(TimeCode(seconds, e) % 32, TimeCode(seconds, e) / 32 + 1, e)
  {
    BracketsOfClamped(ClampTicks(Ticks(seconds, e)), TimeCode(seconds, e), e);
  }

  /** TimeCodeBrackets, for the code of a clamped window. */
  lemma BracketsOfClamped(t: real, code: int, e: nat)
    requires MsrTimeMin <= t <= MsrTimeMax
    requires code == PackTime(TimeY(t), TimeF(t))
    ensures 0 <= code / 32 && 0 <= code % 32
    ensures FromMsrTime(code % 32, code / 32, e) <= t / Pow2(e) as real < FromMsrTime(code % 32, code / 32 + 1, e)
  {
    CodeOfClamped(t, code);
    SecondsBracket(code % 32, code / 32, t, e);
  }

  /** A bracket between two windows in time units is one in seconds. */
  lemma SecondsBracket(y: nat, f: nat, t: real, e: nat)
    requires WindowTicks(y, f) <= t < WindowTicks(y, f + 1)
    ensures FromMsrTime(y, f, e) <= t / Pow2(e) as real < FromMsrTime(y, f + 1, e)
  {
    var E := Pow2(e) as real;
    DivMono(WindowTicks(y, f), t, E);
    DivMonoStrict(t, WindowTicks(y, f + 1), E);
  }

  /** TimeCodeBrackets, in time units. */
  lemma CodeOfClamped(t: real, code: int)
    requires MsrTimeMin <= t <= MsrTimeMax
    requires code == PackTime(TimeY(t), TimeF(t))
    ensures 0 <= code / 32 && 0 <= code % 32
    ensures WindowTicks(code % 32, code / 32) <= t < WindowTicks(code % 32, code / 32 + 1)
  {
    TimeFieldsOf(t);
    CodeDigits(code, TimeY(t), TimeF(t));
  }

  /** The window of a (Y, F) pair, in units, lies in [2^Y, 2^(Y+1)) and within the clamp. */
  lemma WindowInRange(y: nat, f: nat)
    requires y <= 31 && f <= 3
    ensures MsrTimeMin <= WindowTicks(y, f) <= MsrTimeMax
    ensures Pow2(y) as real <= WindowTicks(y, f) < Pow2(y + 1) as real
  {
    var P := Pow2(y);
    var A := P * (4 + f);
    MulMonoLeft(4, 4 + f, P);
    MulMonoLeft(4 + f, 7, P);
    Pow2Mono(y, 31);
    Pow2Add(1, 31);
    Pow2Literal32();
    assert Pow2(y + 1) == 2 * P;
  }

  /** Decoding a (Y, F) pair and encoding the window again gives back the same code. */
  lemma TimeCodeRoundTrip(y: nat, f: nat, e: nat)
    requires y <= 31 && f <= 3
    ensures TimeCode(FromMsrTime(y, f, e), e) == y + 32 * f
  {
    TicksOfWindow(y, f, e);
    WindowInRange(y, f);
    CodeOfWindow(y, f);
  }

  /** The window of (Y, F) in seconds is WindowTicks(Y, F) time units. */
  lemma TicksOfWindow(y: nat, f: nat, e: nat)
    ensures Ticks(FromMsrTime(y, f, e), e) == WindowTicks(y, f)
  {
    DivMulCancel(WindowTicks(y, f), Pow2(e) as real);
  }

  /** The code `to_msr_time` packs for the window of (Y, F) is Y + 32 F. */
  lemma CodeOfWindow(y: nat, f: nat)
    requires y <= 31 && f <= 3
    ensures WindowTicks(y, f) >= 1.0 && PackTime(TimeY(WindowTicks(y, f)), TimeF(WindowTicks(y, f))) == y + 32 * f
  {
    TimeYOfWindow(y, f);
    TimeFOfWindow(y, f);
    CodeDigits(PackTime(y, f), y, f);
  }

  /** The Y `to_msr_time` finds for the window of (Y, F) is Y. */
  lemma TimeYOfWindow(y: nat, f: nat)
    requires y <= 31 && f <= 3
    ensures WindowTicks(y, f) >= 1.0 && TimeY(WindowTicks(y, f)) == y
  {
    var t := WindowTicks(y, f);
    WindowInRange(y, f);
    var n := t.Floor;
    assert Pow2(y) <= n < Pow2(y + 1);
    FloorLog2Unique(n, y);
  }

  /** The F `to_msr_time` finds for the window of (Y, F) is F. */
  lemma TimeFOfWindow(y: nat, f: nat)
    requires y <= 31 && f <= 3
    ensures WindowTicks(y, f) >= 1.0 && TimeF(WindowTicks(y, f)) == f
  {
    var P := Pow2(y);
    var A := P * (4 + f);
    var t := WindowTicks(y, f);
    TimeYOfWindow(y, f);
    assert (4.0 * t).Floor == A;
    assert A == (4 + f) * P;
    DivModUnique(A, P, 4 + f, 0);
  }

  /**
   * `to_msr_time`: the window in time units is clamped into
   * [MsrTimeMin, MsrTimeMax] by reassigning it, Y is `log2_u64` of its whole
   * part, and F is four times the window over 2^Y, less 4.
   */
  method ToMsrTime(seconds: real, e: nat) returns (code: u64)
    requires seconds > 0.0
    ensures code == TimeCode(seconds, e)
  {
    var t := Ticks(seconds, e);
    if t < MsrTimeMin {
      t := MsrTimeMin;
    } else if t > MsrTimeMax {
      t := MsrTimeMax;
    }
    assert t == ClampTicks(Ticks(seconds, e));
    var y := Log2U64(t.Floor);
    assert y == TimeY(t);
    var f := (4.0 * t).Floor / Pow2(y) - 4;
    assert f == TimeF(t);
    code := PackTime(y, f);
  }
}
