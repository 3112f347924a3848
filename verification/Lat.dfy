/** The smoothed latency of a sink and when it is advertised again, over the reals. */
module Lat {
  const SAMPLES_PER_PKT: real := 12.0
  const MATERIAL_NS: int := 3_000_000
  const MAX_RATE: int := 0x7fff_ffff

  datatype Smoother = Smoother(depthEma: real, advertised: int)

  const Unseen: Smoother := Smoother(-1.0, 0)

  function Ema(ema: real, depth: nat): real {
    if ema < 0.0 then depth as real else ema + (depth as real - ema) / 10.0
  }

  /** Staging of one frame plus the smoothed depth, in ns, to the nearest. */
  function LatencyNs(ema: real, rate: int): int {
    if rate <= 0 then 0
    else
      var e := if ema < 0.0 then 0.0 else ema;
      (SAMPLES_PER_PKT * (1.0 + e) * 1_000_000_000.0 / rate as real + 0.5).Floor
  }

  function Dist(a: int, b: int): nat { if a < b then b - a else a - b }

  /** One poll: the smoother, the latency it reports, and whether that is advertised. */
  function Polled(s: Smoother, depth: nat, rate: int): (Smoother, int, bool) {
    var ema := Ema(s.depthEma, depth);
    var ns := LatencyNs(ema, rate);
    var material := s.advertised == 0 || Dist(ns, s.advertised) >= MATERIAL_NS;
    (Smoother(ema, if material then ns else s.advertised), ns, material)
  }

  class Lat {
    var depthEma: real
    var advertisedNs: int

    ghost function Value(): Smoother
      reads this
    {
      Smoother(depthEma, advertisedNs)
    }

    constructor ()
      ensures Value() == Unseen
    {
      depthEma, advertisedNs := -1.0, 0;
    }

    method EmaUpdate(depth: nat) returns (ema: real)
      modifies this`depthEma
      ensures ema == depthEma == Ema(old(depthEma), depth)
    {
      var sample := depth as real;
      if depthEma < 0.0 {
        depthEma := sample;
      } else {
        depthEma := depthEma + (sample - depthEma) / 10.0;
      }
      ema := depthEma;
    }

    method Poll(depth: nat, rate: int) returns (ns: int, material: bool)
      modifies this
      ensures (Value(), ns, material) == Polled(old(Value()), depth, rate)
      ensures Dist(ns, advertisedNs) < MATERIAL_NS
    {
      var ema := EmaUpdate(depth);
      ns := LatencyNs(ema, rate);
      var d := ns - advertisedNs;
      if d < 0 {
        d := -d;
      }
      material := advertisedNs == 0 || d >= MATERIAL_NS;
      if material {
        advertisedNs := ns;
      }
    }
  }

  // ---- every run ----------------------------------------------------------------------

  function After(depths: seq<nat>, rates: seq<int>): Smoother
    requires |depths| == |rates|
    decreases |depths|
  {
    if depths == [] then Unseen
    else
      var n := |depths| - 1;
      Polled(After(depths[..n], rates[..n]), depths[n], rates[n]).0
  }

  /** After every poll the latency reported is within the material step of the one advertised,
    * and the smoothed depth is no smaller or larger than every depth seen. */
  lemma {:induction false} PollsStayClose(depths: seq<nat>, rates: seq<int>, lo: nat, hi: nat)
    requires |depths| == |rates| && depths != []
    requires forall d :: d in depths ==> lo <= d <= hi
    ensures var s := After(depths, rates);
            && lo as real <= s.depthEma <= hi as real
            && Dist(LatencyNs(s.depthEma, rates[|rates| - 1]), s.advertised) < MATERIAL_NS
    decreases |depths|
  {
    var n := |depths| - 1;
    assert depths[n] in depths;
    if n > 0 {
      assert forall d :: d in depths[..n] ==> d in depths;
      PollsStayClose(depths[..n], rates[..n], lo, hi);
    }
  }

  // ---- what is reported ---------------------------------------------------------------------

  /** A latency is that of the smoothed depth and one frame more, twelve samples each, in whole
    * nanoseconds, the nearest: times the rate it is within half the rate of it. */
  lemma LatencyIs(ema: real, rate: int)
    requires 0 < rate
    ensures var exact := 12.0 * (1.0 + (if ema < 0.0 then 0.0 else ema)) * 1_000_000_000.0;
            var reported := LatencyNs(ema, rate) as real * rate as real;
            exact - rate as real / 2.0 < reported <= exact + rate as real / 2.0
  {
    var exact, r := 12.0 * (1.0 + (if ema < 0.0 then 0.0 else ema)) * 1_000_000_000.0, rate as real;
    var q := exact / r;
    var n := LatencyNs(ema, rate) as real;
    Quotient(exact, r);
    assert n <= q + 0.5 < n + 1.0;
    Scale(n, q + 0.5, r);
    Scale(q - 0.5, n, r);
    Halves(q, r);
    calc {
      n * r;
      <= (q + 0.5) * r;
      == q * r + r / 2.0;
      == exact + r / 2.0;
    }
    calc {
      n * r;
      > (q - 0.5) * r;
      == q * r - r / 2.0;
      == exact - r / 2.0;
    }
  }

  lemma Quotient(x: real, d: real)
    requires 0.0 < d
    ensures x / d * d == x
  {
  }

  lemma Scale(x: real, y: real, d: real)
    requires x <= y && 0.0 < d
    ensures x * d <= y * d && (x < y ==> x * d < y * d)
  {
  }

  lemma Halves(q: real, d: real)
    ensures (q + 0.5) * d == q * d + d / 2.0 && (q - 0.5) * d == q * d - d / 2.0
  {
  }

  function Power(n: nat): real { if n == 0 then 1.0 else 0.9 * Power(n - 1) }

  /** The smoothed depth after polls at one depth. */
  function Smoothed(ema: real, depth: nat, n: nat): real { if n == 0 then ema else Ema(Smoothed(ema, depth, n - 1), depth) }

  /** The first depth seen is taken whole.  From there a constant depth is approached by a tenth of the
    * distance left at each poll. */
  lemma {:induction false} ApproachesTheDepth(ema: real, depth: nat, n: nat)
    ensures 0.0 <= ema ==> Smoothed(ema, depth, n) >= 0.0
                           && Smoothed(ema, depth, n) - depth as real == (ema - depth as real) * Power(n)
    ensures ema < 0.0 && 0 < n ==> Smoothed(ema, depth, n) == depth as real
    decreases n
  {
    if n > 0 {
      ApproachesTheDepth(ema, depth, n - 1);
      var was := Smoothed(ema, depth, n - 1);
      if 0.0 <= ema {
        assert Smoothed(ema, depth, n) - depth as real == (was - depth as real) * 0.9;
        assert (ema - depth as real) * Power(n - 1) * 0.9 == (ema - depth as real) * Power(n);
      }
    }
  }

  /** A poll advertises exactly when nothing was advertised or the latency is 3 ms or more from what
    * was, and what it advertises is the latency it reports. */
  lemma AdvertisesIff(s: Smoother, depth: nat, rate: int)
    ensures var (next, ns, material) := Polled(s, depth, rate);
            && (material <==> s.advertised == 0 || ns <= s.advertised - 3_000_000 || s.advertised + 3_000_000 <= ns)
            && next.advertised == (if material then ns else s.advertised)
            && ns == LatencyNs(next.depthEma, rate) && next.depthEma == Smoothed(s.depthEma, depth, 1)
  {
    assert Smoothed(s.depthEma, depth, 0) == s.depthEma;
  }

  // ---- how often it is advertised -------------------------------------------------------

  /** The polls at these depths that advertise. */
  function Advertised(s: Smoother, depths: seq<nat>, rate: int): nat
    decreases |depths|
  {
    if depths == [] then 0
    else
      var (next, _, material) := Polled(s, depths[0], rate);
      (if material then 1 else 0) + Advertised(next, depths[1..], rate)
  }

  predicate Constant(depths: seq<nat>, depth: nat) { forall i :: 0 <= i < |depths| ==> depths[i] == depth }

  lemma LatencyMonotone(a: real, b: real, rate: int)
    requires 0.0 <= a <= b
    ensures LatencyNs(a, rate) <= LatencyNs(b, rate)
  {
    if 0 < rate {
      var x := SAMPLES_PER_PKT * (1.0 + a) * 1_000_000_000.0;
      var y := SAMPLES_PER_PKT * (1.0 + b) * 1_000_000_000.0;
      DivMonotone(x, y, rate as real);
    }
  }

  lemma DivMonotone(x: real, y: real, d: real)
    requires 0.0 < d && x <= y
    ensures x / d <= y / d
  {
  }

  lemma LatencyPositive(ema: real, rate: int)
    requires 0.0 <= ema && 0 < rate <= MAX_RATE
    ensures 0 < LatencyNs(ema, rate)
  {
    var x := SAMPLES_PER_PKT * (1.0 + ema) * 1_000_000_000.0;
    assert rate as real <= x;
    DivMonotone(rate as real, x, rate as real);
  }

  /** There is a rate, or the advertised latency is one that a latency of 0 leaves alone. */
  predicate Settles(s: Smoother, rate: int) {
    0 < rate || 0 < Dist(s.advertised, 0) < MATERIAL_NS
  }

  /** A smoothed depth below the constant one only rises towards it, and an advertisement is
    * left behind by at least the material step. */
  lemma {:induction false} RisingAdvertisements(s: Smoother, depths: seq<nat>, depth: nat, rate: int)
    requires Constant(depths, depth) && rate <= MAX_RATE && Settles(s, rate)
    requires 0.0 <= s.depthEma <= depth as real
    requires s.advertised != 0 && s.advertised - MATERIAL_NS < LatencyNs(s.depthEma, rate)
    ensures var target, count := LatencyNs(depth as real, rate), Advertised(s, depths, rate);
            count * MATERIAL_NS <= (if s.advertised <= target then target - s.advertised else 0)
    decreases |depths|
  {
    if depths != [] {
      var next := Polled(s, depths[0], rate).0;
      LatencyMonotone(s.depthEma, next.depthEma, rate);
      LatencyMonotone(next.depthEma, depth as real, rate);
      if 0 < rate {
        LatencyPositive(next.depthEma, rate);
      }
      RisingAdvertisements(next, depths[1..], depth, rate);
    }
  }

  lemma {:induction false} FallingAdvertisements(s: Smoother, depths: seq<nat>, depth: nat, rate: int)
    requires Constant(depths, depth) && rate <= MAX_RATE && Settles(s, rate)
    requires depth as real <= s.depthEma
    requires s.advertised != 0 && LatencyNs(s.depthEma, rate) < s.advertised + MATERIAL_NS
    ensures var target, count := LatencyNs(depth as real, rate), Advertised(s, depths, rate);
            count * MATERIAL_NS <= (if target <= s.advertised then s.advertised - target else 0)
    decreases |depths|
  {
    if depths != [] {
      var next := Polled(s, depths[0], rate).0;
      LatencyMonotone(next.depthEma, s.depthEma, rate);
      LatencyMonotone(depth as real, next.depthEma, rate);
      if 0 < rate {
        LatencyPositive(next.depthEma, rate);
      }
      FallingAdvertisements(next, depths[1..], depth, rate);
    }
  }

  /** Once the depth is constant, every further advertisement takes a material step off the
    * distance the advertised latency still has to go, for however many polls at whatever rate. */
  lemma AdvertisementsAreBounded(s: Smoother, depths: seq<nat>, depth: nat, rate: int)
    requires Constant(depths, depth) && rate <= MAX_RATE
    requires 0.0 <= s.depthEma && s.advertised != 0
    requires Dist(LatencyNs(s.depthEma, rate), s.advertised) < MATERIAL_NS
    ensures Advertised(s, depths, rate) * MATERIAL_NS
            <= Dist(s.advertised, LatencyNs(depth as real, rate))
  {
    if s.depthEma <= depth as real {
      RisingAdvertisements(s, depths, depth, rate);
    } else {
      FallingAdvertisements(s, depths, depth, rate);
    }
  }

  /** Without a rate the latency is 0, which is also what stands for nothing advertised yet: every
    * poll advertises, or none does. */
  lemma {:induction false} AdvertisementsWithoutRate(s: Smoother, depths: seq<nat>, rate: int)
    requires rate <= 0
    ensures Advertised(s, depths, rate) == if Settles(s, rate) then 0 else |depths|
    decreases |depths|
  {
    if depths != [] {
      AdvertisementsWithoutRate(Polled(s, depths[0], rate).0, depths[1..], rate);
    }
  }

  /** From any state at all the bound has one advertisement more, of the first poll, which may
    * advertise whatever it finds; without a rate all of the polls advertise, or none. */
  lemma AdvertisementsFromAnywhere(s: Smoother, depths: seq<nat>, depth: nat, rate: int)
    requires Constant(depths, depth) && depths != [] && rate <= MAX_RATE
    ensures var first, count := Polled(s, depth, rate).0, Advertised(s, depths, rate);
            if 0 < rate
            then (count - 1) * MATERIAL_NS <= Dist(first.advertised, LatencyNs(depth as real, rate))
            else count == if Settles(s, rate) then 0 else |depths|
  {
    if 0 < rate {
      var first := Polled(s, depth, rate).0;
      LatencyPositive(first.depthEma, rate);
      AdvertisementsAreBounded(first, depths[1..], depth, rate);
    } else {
      AdvertisementsWithoutRate(s, depths, rate);
    }
  }

  /** No run of polls at one depth advertises more than `b` times. */
  ghost predicate AtMost(s: Smoother, depth: nat, rate: int, b: nat) {
    forall depths: seq<nat> :: Constant(depths, depth) ==> Advertised(s, depths, rate) <= b
  }

  /** At a constant depth the advertisements end exactly when there is a rate, or the latency
    * advertised is within a material step of 0 without being 0. */
  lemma AdvertisementsEndIff(s: Smoother, depth: nat, rate: int)
    requires rate <= MAX_RATE
    ensures (exists b :: AtMost(s, depth, rate, b)) <==> Settles(s, rate)
  {
    if Settles(s, rate) {
      var b := 1 + Dist(Polled(s, depth, rate).0.advertised, LatencyNs(depth as real, rate));
      forall depths: seq<nat> | Constant(depths, depth) ensures Advertised(s, depths, rate) <= b {
        if depths != [] {
          AdvertisementsFromAnywhere(s, depths, depth, rate);
        }
      }
      assert AtMost(s, depth, rate, b);
    } else {
      forall b: nat ensures !AtMost(s, depth, rate, b) {
        var depths := seq(b + 1, _ => depth);
        AdvertisementsWithoutRate(s, depths, rate);
        assert Constant(depths, depth) && Advertised(s, depths, rate) == b + 1;
      }
    }
  }

  // ---- a depth that ripples ---------------------------------------------------------------

  /** The depths whose latencies are less than a material step apart. */
  predicate Steady(lo: nat, hi: nat, rate: int) {
    lo <= hi && 0 < rate <= MAX_RATE
    && LatencyNs(hi as real, rate) - LatencyNs(lo as real, rate) < MATERIAL_NS
  }

  predicate InBand(depths: seq<nat>, lo: nat, hi: nat) {
    forall i :: 0 <= i < |depths| ==> lo <= depths[i] <= hi
  }

  /** The latency advertised is one of the band's. */
  predicate Advertises(s: Smoother, lo: nat, hi: nat, rate: int) {
    LatencyNs(lo as real, rate) <= s.advertised <= LatencyNs(hi as real, rate)
  }

  lemma BandPoll(s: Smoother, d: nat, lo: nat, hi: nat, rate: int)
    requires Steady(lo, hi, rate) && lo <= d <= hi
    requires s.depthEma < 0.0 || lo as real <= s.depthEma <= hi as real
    ensures var (next, ns, material) := Polled(s, d, rate);
            && lo as real <= next.depthEma <= hi as real
            && 0 < LatencyNs(lo as real, rate) <= ns <= LatencyNs(hi as real, rate)
            && (Advertises(s, lo, hi, rate) ==> !material)
  {
    hide LatencyNs;
    var next := Polled(s, d, rate).0;
    LatencyPositive(lo as real, rate);
    LatencyMonotone(lo as real, next.depthEma, rate);
    LatencyMonotone(next.depthEma, hi as real, rate);
  }

  /** However the depth ripples inside a steady band, once one of the band's latencies is
    * advertised no poll advertises again. */
  lemma {:induction false} RipplesAreQuiet(s: Smoother, depths: seq<nat>, lo: nat, hi: nat, rate: int)
    requires Steady(lo, hi, rate) && InBand(depths, lo, hi)
    requires lo as real <= s.depthEma <= hi as real && Advertises(s, lo, hi, rate)
    ensures Advertised(s, depths, rate) == 0
    decreases |depths|
  {
    hide LatencyNs, Steady;
    if depths != [] {
      BandPoll(s, depths[0], lo, hi, rate);
      RipplesAreQuiet(Polled(s, depths[0], rate).0, depths[1..], lo, hi, rate);
    }
  }

  /** Steady playback advertises once: at most once whatever was advertised before it, and exactly
    * once, on its first poll, when nothing was. */
  lemma {:induction false} SteadyPlaybackAdvertisesOnce(s: Smoother, depths: seq<nat>, lo: nat, hi: nat,
                                                        rate: int)
    requires Steady(lo, hi, rate) && InBand(depths, lo, hi)
    requires s.depthEma < 0.0 || lo as real <= s.depthEma <= hi as real
    ensures Advertised(s, depths, rate) <= 1
    ensures s.advertised == 0 && depths != [] ==> Advertised(s, depths, rate) == 1
    decreases |depths|
  {
    hide LatencyNs, Steady;
    if depths != [] {
      BandPoll(s, depths[0], lo, hi, rate);
      var (next, _, material) := Polled(s, depths[0], rate);
      if material {
        RipplesAreQuiet(next, depths[1..], lo, hi, rate);
      } else {
        SteadyPlaybackAdvertisesOnce(next, depths[1..], lo, hi, rate);
      }
    }
  }
}
