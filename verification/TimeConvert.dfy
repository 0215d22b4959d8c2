/**
 Conversions between the representations of time: `bintime` counts 2^-64 seconds, `sbintime_t` counts
 2^-32 seconds, `timespec` counts nanoseconds and `timeval` microseconds. They are meant to round down.
 */
module TimeConvert {
  import opened BinTime

  const NANO := 1_000_000_000
  const MICRO := 1_000_000

  /** The factor from nanoseconds to units of 2^-64 seconds, cut off. */
  const NANO_FACTOR := 18446744073
  /** The factor from microseconds to units of 2^-64 seconds, cut off. */
  const MICRO_FACTOR := 18446744073709

  datatype Bt = Bt(sec: Int64, frac: Uint64)
  datatype Ts = Ts(sec: Int64, nsec: Int64)
  datatype Tv = Tv(sec: Int64, usec: Int64)

  ghost function BtValue(bt: Bt): int { bt.sec * TWO_64 + bt.frac }
  ghost function TsValue(ts: Ts): int { ts.sec * NANO + ts.nsec }
  ghost function TvValue(tv: Tv): int { tv.sec * MICRO + tv.usec }

  ghost predicate TsProper(ts: Ts) { 0 <= ts.nsec < NANO }
  ghost predicate TvProper(tv: Tv) { 0 <= tv.usec < MICRO }

  /** The seconds that `sbintime_t` has room for. */
  ghost predicate FitsSbt(sec: int) {
    -0x8000_0000 <= sec < 0x8000_0000
  }

  // ---------- the conversions ----------

  /** `bttosbt`. */
  function BtToSbt(bt: Bt): Int64 {
    Signed(Signed(bt.sec * TWO_32) + bt.frac / TWO_32)
  }

  /** `sbttobt`. */
  function SbtToBt(sbt: Int64): Bt {
    Bt(sbt / TWO_32, Unsigned(sbt * TWO_32))
  }

  /** `sbintime_getsec`. */
  function SbtSec(sbt: Int64): (sec: int)
    ensures FitsSbt(sec) && sec * TWO_32 <= sbt < (sec + 1) * TWO_32
  {
    sbt / TWO_32
  }

  /** `bintime2timespec`. */
  function BtToTs(bt: Bt): Ts {
    Ts(bt.sec, Unsigned(NANO * (bt.frac / TWO_32)) / TWO_32)
  }

  /** `timespec2bintime`. */
  function TsToBt(ts: Ts): Bt {
    Bt(ts.sec, Unsigned(ts.nsec * NANO_FACTOR))
  }

  /** `bintime2timeval`. */
  function BtToTv(bt: Bt): Tv {
    Tv(bt.sec, Unsigned(MICRO * (bt.frac / TWO_32)) / TWO_32)
  }

  /** `timeval2bintime`. */
  function TvToBt(tv: Tv): Bt {
    Bt(tv.sec, Unsigned(tv.usec * MICRO_FACTOR))
  }

  /** `sbttots`. */
  function SbtToTs(sbt: Int64): Ts {
    Ts(sbt / TWO_32, Unsigned(NANO * (sbt % TWO_32)) / TWO_32)
  }

  /** `tstosbt`. */
  function TsToSbt(ts: Ts): Int64 {
    Signed(Signed(ts.sec * TWO_32) + Unsigned(ts.nsec * (TWO_63 / 500_000_000)) / TWO_32)
  }

  /** `sbttotv`. */
  function SbtToTv(sbt: Int64): Tv {
    Tv(sbt / TWO_32, Unsigned(MICRO * (sbt % TWO_32)) / TWO_32)
  }

  /** `tvtosbt`. */
  function TvToSbt(tv: Tv): Int64 {
    Signed(Signed(tv.sec * TWO_32) + Unsigned(tv.usec * (TWO_63 / 500_000)) / TWO_32)
  }

  /** `bintime_cmp` with the operator `<`. */
  predicate BtLess(a: Bt, b: Bt) {
    if a.sec == b.sec then a.frac < b.frac else a.sec < b.sec
  }

  lemma {:induction false} CompareByValue(a: Bt, b: Bt)
    ensures BtLess(a, b) <==> BtValue(a) < BtValue(b)
    ensures a == b <==> BtValue(a) == BtValue(b)
  {
  }

  // ---------- between the binary times ----------

  lemma {:induction false} SbtToBtExact(sbt: Int64)
    ensures BtValue(SbtToBt(sbt)) == sbt * TWO_32 && FitsSbt(SbtToBt(sbt).sec)
  {
    var hi, lo := sbt / TWO_32, sbt % TWO_32;
    assert sbt == hi * TWO_32 + lo;
    assert sbt * TWO_32 == hi * TWO_64 + lo * TWO_32;
  }

  /** Conversion to `sbintime_t` rounds down exactly when the seconds fit. */
  lemma {:induction false} BtToSbtDown(bt: Bt)
    ensures BtToSbt(bt) == BtValue(bt) / TWO_32 <==> FitsSbt(bt.sec)
  {
    var d := bt.frac / TWO_32;
    SignedSum(bt.sec * TWO_32, d);
    assert BtValue(bt) / TWO_32 == bt.sec * TWO_32 + d;
  }

  lemma {:induction false} BtToSbtMonotone(a: Bt, b: Bt)
    requires FitsSbt(a.sec) && FitsSbt(b.sec) && BtValue(a) <= BtValue(b)
    ensures BtToSbt(a) <= BtToSbt(b)
  {
    BtToSbtDown(a);
    BtToSbtDown(b);
  }

  lemma {:induction false} SbtRoundTrip(sbt: Int64)
    ensures BtToSbt(SbtToBt(sbt)) == sbt
  {
    SbtToBtExact(sbt);
    BtToSbtDown(SbtToBt(sbt));
  }

  /** The way back loses less than one unit of 2^-32 seconds. */
  lemma {:induction false} BtRoundTrip(bt: Bt)
    requires FitsSbt(bt.sec)
    ensures var v := BtValue(SbtToBt(BtToSbt(bt))); v <= BtValue(bt) < v + TWO_32
  {
    BtToSbtDown(bt);
    SbtToBtExact(BtToSbt(bt));
  }

  // ---------- nanoseconds ----------

  /** The conversion from `bintime` rounds down, by less than two nanoseconds. */
  lemma {:induction false} BtToTsDown(bt: Bt)
    ensures TsProper(BtToTs(bt))
    ensures TsValue(BtToTs(bt)) * TWO_64 <= BtValue(bt) * NANO < (TsValue(BtToTs(bt)) + 2) * TWO_64
  {
    var hi, lo := bt.frac / TWO_32, bt.frac % TWO_32;
    var n := (NANO * hi) / TWO_32;
    assert bt.frac == hi * TWO_32 + lo;
    assert n * TWO_32 <= NANO * hi < (n + 1) * TWO_32;
  }

  /** It is not always the nearest nanosecond below: the low half of the fraction is dropped before the
      multiplication. It is one short exactly when that half would have carried. */
  lemma {:induction false} BtToTsFloor(bt: Bt)
    ensures TsValue(BtToTs(bt)) == (BtValue(bt) * NANO) / TWO_64 <==>
      ((NANO * (bt.frac / TWO_32)) % TWO_32) * TWO_32 + NANO * (bt.frac % TWO_32) < TWO_64
  {
    BtToTsDown(bt);
    var hi, lo := bt.frac / TWO_32, bt.frac % TWO_32;
    var n, r := (NANO * hi) / TWO_32, (NANO * hi) % TWO_32;
    assert BtValue(bt) * NANO == (bt.sec * NANO + n) * TWO_64 + (r * TWO_32 + NANO * lo);
  }

  lemma {:induction false} BtToTsOneShort()
    ensures var bt := Bt(0, 5 * TWO_32 - 1);
      TsValue(BtToTs(bt)) == 0 && (BtValue(bt) * NANO) / TWO_64 == 1
  {
  }

  lemma {:induction false} BtToTsMonotone(a: Bt, b: Bt)
    requires BtValue(a) <= BtValue(b)
    ensures TsValue(BtToTs(a)) <= TsValue(BtToTs(b))
  {
    BtToTsDown(a);
    BtToTsDown(b);
    if a.sec == b.sec {
      assert a.frac / TWO_32 <= b.frac / TWO_32;
    }
  }

  /** The conversion to `bintime` rounds down, by less than one nanosecond. */
  lemma {:induction false} TsToBtDown(ts: Ts)
    requires TsProper(ts)
    ensures TsToBt(ts).frac == ts.nsec * NANO_FACTOR
    ensures (TsValue(ts) - 1) * TWO_64 < BtValue(TsToBt(ts)) * NANO <= TsValue(ts) * TWO_64
  {
  }

  lemma {:induction false} TsToBtMonotone(a: Ts, b: Ts)
    requires TsProper(a) && TsProper(b)
    ensures TsValue(a) < TsValue(b) <==> BtValue(TsToBt(a)) < BtValue(TsToBt(b))
  {
    TsToBtDown(a);
    TsToBtDown(b);
  }

  /** There and back, a whole second is kept and anything else loses exactly one nanosecond. */
  lemma {:induction false} TsRoundTrip(ts: Ts)
    requires TsProper(ts)
    ensures BtToTs(TsToBt(ts)) == ts.(nsec := if ts.nsec == 0 then 0 else ts.nsec - 1)
  {
    TsToBtDown(ts);
    BtToTsDown(TsToBt(ts));
  }

  /** From `sbintime_t` the result is the last whole nanosecond. */
  lemma {:induction false} SbtToTsFloor(sbt: Int64)
    ensures TsProper(SbtToTs(sbt)) && FitsSbt(SbtToTs(sbt).sec)
    ensures TsValue(SbtToTs(sbt)) == (sbt * NANO) / TWO_32
  {
    var s, low := sbt / TWO_32, sbt % TWO_32;
    assert sbt * NANO == s * NANO * TWO_32 + NANO * low;
  }

  lemma {:induction false} TsPart(n: int)
    requires 0 <= n < NANO
    ensures var d := (n * NANO_FACTOR) / TWO_32;
      0 <= d < TWO_32 && 0 <= n * NANO_FACTOR < TWO_64 && d * NANO <= n * TWO_32 < (d + 2) * NANO
  {
    var d := (n * NANO_FACTOR) / TWO_32;
    assert d * TWO_32 <= n * NANO_FACTOR < (d + 1) * TWO_32;
  }

  /** To `sbintime_t` the result rounds down, by less than two units of 2^-32 seconds. */
  lemma {:induction false} TsToSbtDown(ts: Ts)
    requires TsProper(ts) && FitsSbt(ts.sec)
    ensures TsToSbt(ts) * NANO <= TsValue(ts) * TWO_32 < (TsToSbt(ts) + 2) * NANO
    ensures TsToSbt(ts) == ts.sec * TWO_32 + (ts.nsec * NANO_FACTOR) / TWO_32
  {
    var n: int := ts.nsec;
    var d := (n * NANO_FACTOR) / TWO_32;
    TsPart(n);
    assert Signed(ts.sec * TWO_32) == ts.sec * TWO_32;
    assert TsToSbt(ts) == ts.sec * TWO_32 + d;
  }

  /** Seconds that do not fit wrap around, and the result is right if and only if they fit. */
  lemma {:induction false} TsToSbtWraps(ts: Ts)
    requires TsProper(ts)
    ensures var exact := ts.sec * TWO_32 + (ts.nsec * NANO_FACTOR) / TWO_32;
      TsToSbt(ts) == Signed(exact) && (TsToSbt(ts) == exact <==> FitsSbt(ts.sec))
  {
    var d := (ts.nsec * NANO_FACTOR) / TWO_32;
    TsPart(ts.nsec);
    assert Unsigned(ts.nsec * NANO_FACTOR) / TWO_32 == d;
    hide Signed, Unsigned;
    SignedSum(ts.sec * TWO_32, d);
    SignedExact(ts.sec * TWO_32 + d);
  }

  lemma {:induction false} SbtToTsMonotone(a: Int64, b: Int64)
    requires a <= b
    ensures TsValue(SbtToTs(a)) <= TsValue(SbtToTs(b))
  {
    SbtToTsFloor(a);
    SbtToTsFloor(b);
  }

  lemma {:induction false} TsToSbtMonotone(a: Ts, b: Ts)
    requires TsProper(a) && TsProper(b) && FitsSbt(a.sec) && FitsSbt(b.sec) && TsValue(a) <= TsValue(b)
    ensures TsToSbt(a) <= TsToSbt(b)
  {
    TsToSbtDown(a);
    TsToSbtDown(b);
    assert 0 <= (a.nsec * NANO_FACTOR) / TWO_32 < TWO_32 && 0 <= (b.nsec * NANO_FACTOR) / TWO_32 < TWO_32;
    if a.sec == b.sec {
      assert a.nsec * NANO_FACTOR <= b.nsec * NANO_FACTOR;
    }
  }

  /** The two cut-off products of a way there and back, for the part below the second. */
  lemma {:induction false} TsLoss(low: int, n: int, d: int)
    requires 0 <= low < TWO_32 && n == (NANO * low) / TWO_32 && d == (n * NANO_FACTOR) / TWO_32
    ensures low - 5 <= d <= low
  {
    assert n * TWO_32 <= NANO * low < (n + 1) * TWO_32;
    assert d * TWO_32 <= n * NANO_FACTOR < (d + 1) * TWO_32;
  }

  lemma {:induction false} TsLossBack(n: int, d: int, m: int)
    requires 0 <= n < NANO && d == (n * NANO_FACTOR) / TWO_32 && m == (NANO * d) / TWO_32
    ensures 0 <= d < TWO_32 && m == if n == 0 then 0 else n - 1
  {
    assert d * TWO_32 <= n * NANO_FACTOR < (d + 1) * TWO_32;
    assert m * TWO_32 <= NANO * d < (m + 1) * TWO_32;
  }

  /** From `sbintime_t` and back at most 5 units of 2^-32 seconds are lost. */
  lemma {:induction false} SbtTsSbt(sbt: Int64)
    ensures sbt - 5 <= TsToSbt(SbtToTs(sbt)) <= sbt
  {
    var ts := SbtToTs(sbt);
    SbtToTsFloor(sbt);
    TsToSbtDown(ts);
    TsLoss(sbt % TWO_32, ts.nsec, (ts.nsec * NANO_FACTOR) / TWO_32);
  }

  /** To `sbintime_t` and back, a whole second is kept and anything else loses exactly one nanosecond. */
  lemma {:induction false} TsSbtTs(ts: Ts)
    requires TsProper(ts) && FitsSbt(ts.sec)
    ensures SbtToTs(TsToSbt(ts)) == ts.(nsec := if ts.nsec == 0 then 0 else ts.nsec - 1)
  {
    var d := (ts.nsec * NANO_FACTOR) / TWO_32;
    TsToSbtDown(ts);
    TsLossBack(ts.nsec, d, (NANO * d) / TWO_32);
    assert TsToSbt(ts) / TWO_32 == ts.sec && TsToSbt(ts) % TWO_32 == d;
  }

  // ---------- microseconds ----------

  /** The conversion from `bintime` rounds down, by less than two microseconds. */
  lemma {:induction false} BtToTvDown(bt: Bt)
    ensures TvProper(BtToTv(bt))
    ensures TvValue(BtToTv(bt)) * TWO_64 <= BtValue(bt) * MICRO < (TvValue(BtToTv(bt)) + 2) * TWO_64
  {
    var hi, lo := bt.frac / TWO_32, bt.frac % TWO_32;
    var n := (MICRO * hi) / TWO_32;
    assert bt.frac == hi * TWO_32 + lo;
    assert n * TWO_32 <= MICRO * hi < (n + 1) * TWO_32;
  }

  /** It is not always the nearest microsecond below: the low half of the fraction is dropped before the
      multiplication. It is one short exactly when that half would have carried. */
  lemma {:induction false} BtToTvFloor(bt: Bt)
    ensures TvValue(BtToTv(bt)) == (BtValue(bt) * MICRO) / TWO_64 <==>
      ((MICRO * (bt.frac / TWO_32)) % TWO_32) * TWO_32 + MICRO * (bt.frac % TWO_32) < TWO_64
  {
    BtToTvDown(bt);
    var hi, lo := bt.frac / TWO_32, bt.frac % TWO_32;
    var n, r := (MICRO * hi) / TWO_32, (MICRO * hi) % TWO_32;
    assert BtValue(bt) * MICRO == (bt.sec * MICRO + n) * TWO_64 + (r * TWO_32 + MICRO * lo);
  }

  lemma {:induction false} BtToTvOneShort()
    ensures var bt := Bt(0, 4295 * TWO_32 - 1);
      TvValue(BtToTv(bt)) == 0 && (BtValue(bt) * MICRO) / TWO_64 == 1
  {
  }

  lemma {:induction false} BtToTvMonotone(a: Bt, b: Bt)
    requires BtValue(a) <= BtValue(b)
    ensures TvValue(BtToTv(a)) <= TvValue(BtToTv(b))
  {
    BtToTvDown(a);
    BtToTvDown(b);
    if a.sec == b.sec {
      assert a.frac / TWO_32 <= b.frac / TWO_32;
    }
  }

  /** The conversion to `bintime` rounds down, by less than one microsecond. */
  lemma {:induction false} TvToBtDown(tv: Tv)
    requires TvProper(tv)
    ensures TvToBt(tv).frac == tv.usec * MICRO_FACTOR
    ensures (TvValue(tv) - 1) * TWO_64 < BtValue(TvToBt(tv)) * MICRO <= TvValue(tv) * TWO_64
  {
  }

  lemma {:induction false} TvToBtMonotone(a: Tv, b: Tv)
    requires TvProper(a) && TvProper(b)
    ensures TvValue(a) < TvValue(b) <==> BtValue(TvToBt(a)) < BtValue(TvToBt(b))
  {
    TvToBtDown(a);
    TvToBtDown(b);
  }

  /** There and back, a whole second is kept and anything else loses exactly one microsecond. */
  lemma {:induction false} TvRoundTrip(tv: Tv)
    requires TvProper(tv)
    ensures BtToTv(TvToBt(tv)) == tv.(usec := if tv.usec == 0 then 0 else tv.usec - 1)
  {
    TvToBtDown(tv);
    BtToTvDown(TvToBt(tv));
  }

  /** From `sbintime_t` the result is the last whole microsecond. */
  lemma {:induction false} SbtToTvFloor(sbt: Int64)
    ensures TvProper(SbtToTv(sbt)) && FitsSbt(SbtToTv(sbt).sec)
    ensures TvValue(SbtToTv(sbt)) == (sbt * MICRO) / TWO_32
  {
    var s, low := sbt / TWO_32, sbt % TWO_32;
    assert sbt * MICRO == s * MICRO * TWO_32 + MICRO * low;
  }

  lemma {:induction false} TvPart(n: int)
    requires 0 <= n < MICRO
    ensures var d := (n * MICRO_FACTOR) / TWO_32;
      0 <= d < TWO_32 && 0 <= n * MICRO_FACTOR < TWO_64 && d * MICRO <= n * TWO_32 < (d + 2) * MICRO
  {
    var d := (n * MICRO_FACTOR) / TWO_32;
    assert d * TWO_32 <= n * MICRO_FACTOR < (d + 1) * TWO_32;
  }

  /** To `sbintime_t` the result rounds down, by less than two units of 2^-32 seconds. */
  lemma {:induction false} TvToSbtDown(tv: Tv)
    requires TvProper(tv) && FitsSbt(tv.sec)
    ensures TvToSbt(tv) * MICRO <= TvValue(tv) * TWO_32 < (TvToSbt(tv) + 2) * MICRO
    ensures TvToSbt(tv) == tv.sec * TWO_32 + (tv.usec * MICRO_FACTOR) / TWO_32
  {
    var n: int := tv.usec;
    var d := (n * MICRO_FACTOR) / TWO_32;
    TvPart(n);
    assert Signed(tv.sec * TWO_32) == tv.sec * TWO_32;
    assert TvToSbt(tv) == tv.sec * TWO_32 + d;
  }

  /** Seconds that do not fit wrap around, and the result is right if and only if they fit. */
  lemma {:induction false} TvToSbtWraps(tv: Tv)
    requires TvProper(tv)
    ensures var exact := tv.sec * TWO_32 + (tv.usec * MICRO_FACTOR) / TWO_32;
      TvToSbt(tv) == Signed(exact) && (TvToSbt(tv) == exact <==> FitsSbt(tv.sec))
  {
    var d := (tv.usec * MICRO_FACTOR) / TWO_32;
    TvPart(tv.usec);
    assert Unsigned(tv.usec * MICRO_FACTOR) / TWO_32 == d;
    hide Signed, Unsigned;
    SignedSum(tv.sec * TWO_32, d);
    SignedExact(tv.sec * TWO_32 + d);
  }

  lemma {:induction false} SbtToTvMonotone(a: Int64, b: Int64)
    requires a <= b
    ensures TvValue(SbtToTv(a)) <= TvValue(SbtToTv(b))
  {
    SbtToTvFloor(a);
    SbtToTvFloor(b);
  }

  lemma {:induction false} TvToSbtMonotone(a: Tv, b: Tv)
    requires TvProper(a) && TvProper(b) && FitsSbt(a.sec) && FitsSbt(b.sec) && TvValue(a) <= TvValue(b)
    ensures TvToSbt(a) <= TvToSbt(b)
  {
    TvToSbtDown(a);
    TvToSbtDown(b);
    assert 0 <= (a.usec * MICRO_FACTOR) / TWO_32 < TWO_32 && 0 <= (b.usec * MICRO_FACTOR) / TWO_32 < TWO_32;
    if a.sec == b.sec {
      assert a.usec * MICRO_FACTOR <= b.usec * MICRO_FACTOR;
    }
  }

  /** The two cut-off products of a way there and back, for the part below the second. */
  lemma {:induction false} TvLoss(low: int, n: int, d: int)
    requires 0 <= low < TWO_32 && n == (MICRO * low) / TWO_32 && d == (n * MICRO_FACTOR) / TWO_32
    ensures low - 4295 <= d <= low
  {
    assert n * TWO_32 <= MICRO * low < (n + 1) * TWO_32;
    assert d * TWO_32 <= n * MICRO_FACTOR < (d + 1) * TWO_32;
  }

  lemma {:induction false} TvLossBack(n: int, d: int, m: int)
    requires 0 <= n < MICRO && d == (n * MICRO_FACTOR) / TWO_32 && m == (MICRO * d) / TWO_32
    ensures 0 <= d < TWO_32 && m == if n == 0 then 0 else n - 1
  {
    assert d * TWO_32 <= n * MICRO_FACTOR < (d + 1) * TWO_32;
    assert m * TWO_32 <= MICRO * d < (m + 1) * TWO_32;
  }

  /** From `sbintime_t` and back at most 4295 units of 2^-32 seconds are lost. */
  lemma {:induction false} SbtTvSbt(sbt: Int64)
    ensures sbt - 4295 <= TvToSbt(SbtToTv(sbt)) <= sbt
  {
    var tv := SbtToTv(sbt);
    SbtToTvFloor(sbt);
    TvToSbtDown(tv);
    TvLoss(sbt % TWO_32, tv.usec, (tv.usec * MICRO_FACTOR) / TWO_32);
  }

  /** To `sbintime_t` and back, a whole second is kept and anything else loses exactly one microsecond. */
  lemma {:induction false} TvSbtTv(tv: Tv)
    requires TvProper(tv) && FitsSbt(tv.sec)
    ensures SbtToTv(TvToSbt(tv)) == tv.(usec := if tv.usec == 0 then 0 else tv.usec - 1)
  {
    var d := (tv.usec * MICRO_FACTOR) / TWO_32;
    TvToSbtDown(tv);
    TvLossBack(tv.usec, d, (MICRO * d) / TWO_32);
    assert TvToSbt(tv) / TWO_32 == tv.sec && TvToSbt(tv) % TWO_32 == d;
  }
}
