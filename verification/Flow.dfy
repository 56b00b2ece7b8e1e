// The flow control of src/transport/rgtp_flow.c in exact arithmetic: the float expressions are
// integer or rational ones, and the counters do not wrap.
module Flow {
  import opened Bits

  const WINDOW_MIN := 1
  const WINDOW_MAX := 65536
  const RECOVERY_PERIODS := 5

  datatype State = State(rtt: nat, baseline: nat, samples: nat, window: nat, lowRtt: nat, loss: real, fec: real)

  function Initial(window: nat): State {
    State(0, 0, 0, if window > 0 then window else 64, 0, 0.0, 0.0)
  }

  // (7/8) old + (1/8) sample, truncated
  function Ewma(rtt: nat, sample: nat): nat { (7 * rtt + sample) / 8 }

  function OnCongestion(f: State): State {
    f.(window := if f.window / 2 < WINDOW_MIN then WINDOW_MIN else f.window / 2, lowRtt := 0)
  }

  function OnAck(f: State): State {
    f.(window := if f.window + 1 > WINDOW_MAX then WINDOW_MAX else f.window + 1)
  }

  // The estimate and baseline after a nonzero sample.
  function Estimate(f: State, sample: nat): State {
    if f.samples == 0 then f.(rtt := sample, baseline := sample, samples := 1)
    else
      var r := Ewma(f.rtt, sample);
      f.(rtt := r, baseline := if r < f.baseline then r else f.baseline, samples := f.samples + 1)
  }

  // Halve above twice the baseline; grow after five samples within a tenth of it.
  function Adjust(f: State): State {
    if f.baseline == 0 then f
    else if f.rtt > 2 * f.baseline then OnCongestion(f)
    else if 10 * f.rtt <= 11 * f.baseline then
      var g := f.(lowRtt := f.lowRtt + 1);
      if g.lowRtt >= RECOVERY_PERIODS then OnAck(g).(lowRtt := 0) else g
    else f.(lowRtt := 0)
  }

  function UpdateRtt(f: State, sample: nat): State {
    if sample == 0 then f else Adjust(Estimate(f, sample))
  }

  function Clamp(x: real): real { if x < 0.0 then 0.0 else if x > 1.0 then 1.0 else x }

  function UpdateLoss(f: State, sample: real): State {
    f.(loss := 0.875 * f.loss + 0.125 * Clamp(sample))
  }

  function UpdateFec(f: State): State {
    if f.loss > 0.05 then f.(fec := if f.fec + 0.10 > 0.50 then 0.50 else f.fec + 0.10)
    else if f.loss < 0.01 then f.(fec := if f.fec - 0.05 < 0.0 then 0.0 else f.fec - 0.05)
    else f
  }

  // ---- the object whose fields the source updates

  class FlowControl {
    var rtt: nat
    var baseline: nat
    var samples: nat
    var window: nat
    var lowRtt: nat
    var loss: real
    var fec: real

    ghost function Value(): State
      reads this
    {
      State(rtt, baseline, samples, window, lowRtt, loss, fec)
    }

    // rgtp_flow_init
    constructor (initialWindow: nat)
      ensures Value() == Initial(initialWindow)
      ensures window == (if initialWindow == 0 then 64 else initialWindow) && samples == 0 && fec == loss == 0.0
    {
      rtt, baseline, samples, lowRtt, loss, fec := 0, 0, 0, 0, 0.0, 0.0;
      window := if initialWindow > 0 then initialWindow else 64;
    }

    // rgtp_flow_update_rtt
    method AddSample(sample: nat)
      modifies this
      ensures Value() == UpdateRtt(old(Value()), sample)
    {
      if sample == 0 { return; }
      if samples == 0 {
        rtt := sample;
        baseline := sample;
      } else {
        rtt := (7 * rtt + sample) / 8;
        if rtt < baseline {
          baseline := rtt;
        }
      }
      samples := samples + 1;
      if baseline > 0 {
        if rtt > 2 * baseline {
          Congested();
        } else if 10 * rtt <= 11 * baseline {
          lowRtt := lowRtt + 1;
          if lowRtt >= RECOVERY_PERIODS {
            Acked();
            lowRtt := 0;
          }
        } else {
          lowRtt := 0;
        }
      }
    }

    // rgtp_flow_on_congestion
    method Congested()
      modifies this
      ensures Value() == OnCongestion(old(Value()))
    {
      var w := window / 2;
      if w < WINDOW_MIN {
        w := WINDOW_MIN;
      }
      window := w;
      lowRtt := 0;
    }

    // rgtp_flow_on_ack
    method Acked()
      modifies this
      ensures Value() == OnAck(old(Value()))
    {
      var w := window + 1;
      if w > WINDOW_MAX {
        w := WINDOW_MAX;
      }
      window := w;
    }

    // rgtp_flow_update_loss
    method AddLoss(sample: real)
      modifies this
      ensures Value() == UpdateLoss(old(Value()), sample)
    {
      var x := sample;
      if x < 0.0 { x := 0.0; }
      if x > 1.0 { x := 1.0; }
      loss := 0.875 * loss + 0.125 * x;
    }

    // rgtp_flow_update_fec
    method AdaptFec()
      modifies this
      ensures Value() == UpdateFec(old(Value()))
    {
      if loss > 0.05 {
        fec := fec + 0.10;
        if fec > 0.50 { fec := 0.50; }
      } else if loss < 0.01 {
        fec := fec - 0.05;
        if fec < 0.0 { fec := 0.0; }
      }
    }
  }

  // ---- runs

  datatype Event = Rtt(sample: nat) | Loss(fraction: real) | Fec

  function Step(f: State, e: Event): State {
    match e
    case Rtt(s) => UpdateRtt(f, s)
    case Loss(x) => UpdateLoss(f, x)
    case Fec => UpdateFec(f)
  }

  function Run(f: State, es: seq<Event>): State {
    if es == [] then f else Step(Run(f, es[..|es| - 1]), es[|es| - 1])
  }

  // The window never leaves [1, max(initial, 65536)] and gains at most one chunk per five samples;
  // loss and overhead stay in their ranges.
  ghost predicate Bounded(f: State, initial: nat) {
    && 1 <= f.window <= Max(initial, WINDOW_MAX)
    && f.lowRtt < RECOVERY_PERIODS
    && 5 * f.window + f.lowRtt <= 5 * initial + f.samples
    && 0.0 <= f.loss <= 1.0 && 0.0 <= f.fec <= 0.5
  }

  lemma {:induction false} RunBounded(configured: nat, es: seq<Event>)
    ensures var f := Run(Initial(configured), es);
            var initial := Initial(configured).window;
            Bounded(f, initial) && f.window <= initial + f.samples / 5
  {
    if es != [] {
      RunBounded(configured, es[..|es| - 1]);
      StepBounded(Run(Initial(configured), es[..|es| - 1]), Initial(configured).window, es[|es| - 1]);
    }
  }

  lemma StepBounded(f: State, initial: nat, e: Event)
    requires Bounded(f, initial)
    ensures Bounded(Step(f, e), initial)
  {}

  // Every estimate lies between the least and the greatest sample seen.
  lemma {:induction false} EstimateBetween(initial: nat, es: seq<Event>, lo: nat, hi: nat)
    requires forall i :: 0 <= i < |es| && es[i].Rtt? && es[i].sample > 0 ==> lo <= es[i].sample <= hi
    ensures var f := Run(Initial(initial), es); f.samples > 0 ==> lo <= f.rtt <= hi
  {
    if es != [] {
      var k := |es| - 1;
      EstimateBetween(initial, es[..k], lo, hi);
      var e := es[k];
      assert es[k].Rtt? && es[k].sample > 0 ==> lo <= es[k].sample <= hi;
    }
  }

  // The estimates of a run, one per nonzero sample.
  function Estimates(f: State, es: seq<Event>): seq<nat> {
    if es == [] then []
    else
      var k := |es| - 1;
      Estimates(f, es[..k]) + if es[k].Rtt? && es[k].sample > 0 then [Run(f, es).rtt] else []
  }

  // The baseline is the least estimate so far.
  lemma {:induction false} BaselineIsMinimum(initial: nat, es: seq<Event>)
    ensures var f := Run(Initial(initial), es);
            var xs := Estimates(Initial(initial), es);
            && f.samples == |xs|
            && (xs != [] ==> f.baseline in xs)
            && (forall i :: 0 <= i < |xs| ==> f.baseline <= xs[i])
  {
    if es != [] {
      var k := |es| - 1;
      BaselineIsMinimum(initial, es[..k]);
      var f, xs := Run(Initial(initial), es[..k]), Estimates(Initial(initial), es[..k]);
      StepBaseline(f, es[k]);
      hide Step;
      if es[k].Rtt? && es[k].sample > 0 {
        var ys := xs + [Step(f, es[k]).rtt];
        assert ys[|xs|] == Step(f, es[k]).rtt;
        assert xs != [] ==> f.baseline in ys;
      }
    }
  }

  // What one event does to the baseline.
  lemma StepBaseline(f: State, e: Event)
    ensures var g := Step(f, e);
            if e.Rtt? && e.sample > 0
            then g.samples == f.samples + 1 &&
                 g.baseline == if f.samples == 0 || g.rtt < f.baseline then g.rtt else f.baseline
            else g.samples == f.samples && g.baseline == f.baseline && g.rtt == f.rtt
  {}

  // ---- the baseline against the samples

  // The least sample so far, 0 before the first. A sample of 0 is ignored.
  function Least(es: seq<Event>): nat {
    if es == [] then 0
    else
      var m, e := Least(es[..|es| - 1]), es[|es| - 1];
      if e.Rtt? && e.sample > 0 && (m == 0 || e.sample < m) then e.sample else m
  }

  lemma {:induction false} LeastIs(es: seq<Event>)
    ensures Least(es) > 0 <==> exists i :: 0 <= i < |es| && es[i].Rtt? && es[i].sample > 0
    ensures Least(es) > 0 ==> Rtt(Least(es)) in es
    ensures forall i :: 0 <= i < |es| && es[i].Rtt? && es[i].sample > 0 ==> Least(es) <= es[i].sample
  {
    if es != [] {
      var k := |es| - 1;
      LeastIs(es[..k]);
      assert es == es[..k] + [es[k]];
      if Least(es[..k]) > 0 {
        var i :| 0 <= i < k && es[..k][i].Rtt? && es[..k][i].sample > 0;
        assert es[i].Rtt? && es[i].sample > 0;
      }
    }
  }

  // The samples 100 and 50 leave a baseline of 93.
  lemma BaselineMissesMinimum(initial: nat)
    ensures Run(Initial(initial), [Rtt(100), Rtt(50)]).baseline == 93 && Least([Rtt(100), Rtt(50)]) == 50
  {
    var es := [Rtt(100), Rtt(50)];
    assert es[..1] == [Rtt(100)] && es[..1][..0] == [];
    assert Run(Initial(initial), es[..1]) == UpdateRtt(Initial(initial), 100);
    assert Ewma(100, 50) == 93;
  }

  // A sample below all earlier ones finds the estimate at most one above it.
  ghost predicate GentleAt(initial: nat, es: seq<Event>, m: nat)
    requires m < |es|
  {
    es[m].Rtt? && 0 < es[m].sample < Least(es[..m]) ==> Run(Initial(initial), es[..m]).rtt <= es[m].sample + 1
  }

  ghost predicate BaselineTrue(initial: nat, es: seq<Event>) {
    Run(Initial(initial), es).baseline == Least(es)
  }

  lemma {:induction false} BaselineBelow(initial: nat, es: seq<Event>)
    ensures var f := Run(Initial(initial), es);
            && f.baseline <= f.rtt
            && (f.samples == 0 <==> Least(es) == 0) && (f.samples == 0 ==> f.baseline == 0)
  {
    if es != [] { BaselineBelow(initial, es[..|es| - 1]); }
  }

  lemma BaselineStep(initial: nat, es: seq<Event>, m: nat)
    requires m < |es| && BaselineTrue(initial, es[..m])
    ensures BaselineTrue(initial, es[..m + 1]) <==> GentleAt(initial, es, m)
  {
    BaselineBelow(initial, es[..m]);
    assert es[..m + 1][..m] == es[..m];
    var f := Run(Initial(initial), es[..m]);
    if es[m].Rtt? && es[m].sample > 0 && f.samples > 0 {
      EwmaReaches(f.rtt, es[m].sample, f.baseline);
    }
  }

  lemma EwmaReaches(r: nat, s: nat, b: nat)
    requires b <= r
    ensures s >= b ==> Ewma(r, s) >= b
    ensures s < b ==> s <= Ewma(r, s) && (Ewma(r, s) == s <==> r <= s + 1)
  {}

  // The baseline is the least sample at every point of a run exactly when every sample that undercuts
  // all earlier ones does so by stepping just below the estimate.
  lemma BaselineExactly(initial: nat, es: seq<Event>)
    ensures (forall m :: 0 <= m <= |es| ==> BaselineTrue(initial, es[..m]))
            <==> (forall m :: 0 <= m < |es| ==> GentleAt(initial, es, m))
  {
    assert BaselineTrue(initial, []) && es[..0] == [];
    hide BaselineTrue, GentleAt;
    if forall m :: 0 <= m <= |es| ==> BaselineTrue(initial, es[..m]) {
      forall m | 0 <= m < |es| ensures GentleAt(initial, es, m) {
        assert BaselineTrue(initial, es[..m]) && BaselineTrue(initial, es[..m + 1]);
        BaselineStep(initial, es, m);
      }
    }
    if forall m :: 0 <= m < |es| ==> GentleAt(initial, es, m) {
      for j := 0 to |es|
        invariant forall m :: 0 <= m <= j ==> BaselineTrue(initial, es[..m])
      {
        BaselineStep(initial, es, j);
      }
    }
  }

  // ---- a constant sample

  // Where repeated samples s drive an estimate r: down to s exactly, but from below only to s - 7.
  function Limit(r: nat, s: nat): nat {
    if r > s then s else if r + 7 < s then s - 7 else r
  }

  function Repeat(r: nat, s: nat, n: nat): nat {
    if n == 0 then r else Ewma(Repeat(r, s, n - 1), s)
  }

  function Distance(a: nat, b: nat): nat { if a > b then a - b else b - a }

  // One more sample moves the estimate strictly toward its limit, without passing it or changing it.
  lemma TowardLimit(r: nat, s: nat)
    ensures Limit(Ewma(r, s), s) == Limit(r, s)
    ensures r == Limit(r, s) ==> Ewma(r, s) == r
    ensures r > Limit(r, s) ==> Limit(r, s) <= Ewma(r, s) < r
    ensures r < Limit(r, s) ==> r < Ewma(r, s) <= Limit(r, s)
  {}

  // After as many samples as its distance, the estimate has reached the limit and stays there.
  lemma {:induction false} Converges(r: nat, s: nat, n: nat)
    ensures Limit(Repeat(r, s, n), s) == Limit(r, s)
    ensures Distance(Repeat(r, s, n), Limit(r, s)) + n <= Distance(r, Limit(r, s)) || Repeat(r, s, n) == Limit(r, s)
    ensures n >= Distance(r, Limit(r, s)) ==> Repeat(r, s, n) == Limit(r, s)
  {
    if n > 0 {
      Converges(r, s, n - 1);
      hide Ewma, Limit;
      TowardLimit(Repeat(r, s, n - 1), s);
    }
  }

  lemma LimitRange(r: nat, s: nat)
    ensures Limit(r, s) <= s && s <= Limit(r, s) + 7
    ensures Limit(r, s) == s <==> r >= s
  {}

  function Constant(s: nat, n: nat): seq<Event> {
    if n == 0 then [] else Constant(s, n - 1) + [Rtt(s)]
  }

  lemma SampleEstimate(f: State, s: nat)
    requires f.samples > 0 && s > 0
    ensures UpdateRtt(f, s).rtt == Ewma(f.rtt, s) && UpdateRtt(f, s).samples == f.samples + 1
  {}

  // The estimate of a run whose samples are all s, from any state that has seen one.
  lemma {:induction false} ConstantRun(f: State, s: nat, n: nat)
    requires f.samples > 0 && s > 0
    ensures var g := Run(f, Constant(s, n)); g.rtt == Repeat(f.rtt, s, n) && g.samples == f.samples + n
  {
    hide UpdateRtt, Ewma;
    if n > 0 {
      ConstantRun(f, s, n - 1);
      RunConstant(f, s, n);
      SampleEstimate(Run(f, Constant(s, n - 1)), s);
    }
  }

  // Under a constant sample the estimate is at its limit within finitely many samples, for good.
  lemma ConstantSampleSettles(f: State, s: nat, n: nat)
    requires f.samples > 0 && s > 0 && n >= Distance(f.rtt, Limit(f.rtt, s))
    ensures Run(f, Constant(s, n)).rtt == Limit(f.rtt, s)
    ensures Limit(f.rtt, s) <= s <= Limit(f.rtt, s) + 7
    ensures Run(f, Constant(s, n)).rtt == s <==> f.rtt >= s
  {
    hide Limit, Distance, Repeat, Run;
    ConstantRun(f, s, n);
    Converges(f.rtt, s, n);
    LimitRange(f.rtt, s);
  }

  // ---- how the window answers

  // n samples s into growing steadily from the window w.
  ghost predicate Steady(f: State, w: nat, s: nat, n: nat) {
    && f.window == Min(w + n / 5, WINDOW_MAX)
    && f.lowRtt == n % 5 && f.samples == n
    && (n > 0 ==> f.rtt == s && f.baseline == s)
  }

  // From a fresh state a constant delay grows the window by exactly one chunk per five samples, up to
  // the maximum.
  lemma {:induction false} SteadyGrowth(configured: nat, s: nat, n: nat)
    requires s > 0 && Initial(configured).window <= WINDOW_MAX
    ensures Steady(Run(Initial(configured), Constant(s, n)), Initial(configured).window, s, n)
  {
    if n > 0 {
      hide *;
      SteadyGrowth(configured, s, n - 1);
      RunConstant(Initial(configured), s, n);
      SteadyAdvance(Run(Initial(configured), Constant(s, n - 1)), Initial(configured).window, s, n);
    }
  }

  lemma SteadyAdvance(f: State, w: nat, s: nat, n: nat)
    requires s > 0 && n > 0 && Steady(f, w, s, n - 1)
    ensures Steady(UpdateRtt(f, s), w, s, n)
  {
    hide UpdateRtt;
    SteadyStep(f, s);
    FifthStep(n);
  }

  lemma RunConstant(f: State, s: nat, n: nat)
    requires n > 0
    ensures Run(f, Constant(s, n)) == UpdateRtt(Run(f, Constant(s, n - 1)), s)
  {
    hide UpdateRtt;
    var es := Constant(s, n);
    assert es[..|es| - 1] == Constant(s, n - 1);
  }

  lemma FifthStep(n: nat)
    requires n > 0
    ensures (n - 1) % 5 == 4 ==> n % 5 == 0 && n / 5 == (n - 1) / 5 + 1
    ensures (n - 1) % 5 != 4 ==> n % 5 == (n - 1) % 5 + 1 && n / 5 == (n - 1) / 5
  {}

  lemma SteadyStep(f: State, s: nat)
    requires s > 0 && f.lowRtt < 5 && (f.samples > 0 ==> f.rtt == s && f.baseline == s)
    ensures UpdateRtt(f, s) == f.(rtt := s, baseline := s, samples := f.samples + 1,
                                  lowRtt := if f.lowRtt == 4 then 0 else f.lowRtt + 1,
                                  window := if f.lowRtt == 4 then Min(f.window + 1, WINDOW_MAX) else f.window)
  {
    assert (7 * s + s) / 8 == s;
  }

  // w divided by 2^n, but at least 1.
  function Halved(w: nat, n: nat): nat { Max(1, w / Pow2(n)) }

  // While the estimate is above twice the baseline and the samples keep it there, every sample halves
  // the window, down to one chunk.
  lemma {:induction false} CongestionHalves(f: State, s: nat, n: nat)
    requires f.samples > 0 && f.baseline > 0 && f.rtt > 2 * f.baseline && s >= f.rtt && f.window >= 1
    ensures var g := Run(f, Constant(s, n));
            && g.window == Halved(f.window, n)
            && g.baseline == f.baseline && f.rtt <= g.rtt <= s && g.samples > 0
            && (n > 0 ==> g.lowRtt == 0)
  {
    hide UpdateRtt, Run, Constant, Halved;
    if n == 0 {
      RunNone(f, s);
      HalvedNone(f.window);
    } else {
      CongestionHalves(f, s, n - 1);
      RunConstant(f, s, n);
      CongestedStep(Run(f, Constant(s, n - 1)), s);
      HalvePower(f.window, n);
    }
  }

  lemma CongestedStep(f: State, s: nat)
    requires f.samples > 0 && f.baseline > 0 && f.rtt > 2 * f.baseline && s >= f.rtt
    ensures var g := UpdateRtt(f, s);
            && f.rtt <= g.rtt <= s && g.baseline == f.baseline && g.samples > 0
            && g.window == Max(1, f.window / 2) && g.lowRtt == 0
  {}

  lemma RunNone(f: State, s: nat)
    ensures Run(f, Constant(s, 0)) == f
  {}

  lemma HalvedNone(w: nat)
    requires w >= 1
    ensures Halved(w, 0) == w
  {
    assert Pow2(0) == 1;
  }

  lemma HalvePower(w: nat, n: nat)
    requires n > 0
    ensures Max(1, Halved(w, n - 1) / 2) == Halved(w, n)
  {
    var p := Pow2(n - 1);
    var q, r := w / p, w % p;
    Distribute(p, 2 * (q / 2), q % 2);
    assert p * q == (2 * p) * (q / 2) + p * (q % 2);
    DivModUnique(w, 2 * p, q / 2, p * (q % 2) + r);
  }

  // ---- the bands of the window rule

  function Samples(ss: seq<nat>): seq<Event> {
    if ss == [] then [] else Samples(ss[..|ss| - 1]) + [Rtt(ss[|ss| - 1])]
  }

  lemma RunSamples(f: State, ss: seq<nat>)
    requires ss != []
    ensures Run(f, Samples(ss)) == UpdateRtt(Run(f, Samples(ss[..|ss| - 1])), ss[|ss| - 1])
  {
    hide UpdateRtt;
    var es := Samples(ss);
    assert es[..|es| - 1] == Samples(ss[..|ss| - 1]);
  }

  // Sample s leaves the estimate within a tenth of the baseline.
  predicate NearAfter(f: State, s: nat) {
    var g := UpdateRtt(f, s); s > 0 && g.baseline > 0 && 10 * g.rtt <= 11 * g.baseline
  }

  // Sample s leaves it above that but not above twice the baseline.
  predicate BetweenAfter(f: State, s: nat) {
    var g := UpdateRtt(f, s); s > 0 && 11 * g.baseline < 10 * g.rtt <= 20 * g.baseline
  }

  // Every sample of ss does.
  ghost predicate Near(f: State, ss: seq<nat>) {
    ss != [] ==>
      var k := |ss| - 1; Near(f, ss[..k]) && NearAfter(Run(f, Samples(ss[..k])), ss[k])
  }

  ghost predicate Between(f: State, ss: seq<nat>) {
    ss != [] ==>
      var k := |ss| - 1; Between(f, ss[..k]) && BetweenAfter(Run(f, Samples(ss[..k])), ss[k])
  }

  lemma NearStep(f: State, s: nat)
    requires NearAfter(f, s) && f.lowRtt < 5 && f.window <= WINDOW_MAX
    ensures var g := UpdateRtt(f, s);
            if f.lowRtt == 4 then g.lowRtt == 0 && g.window == Min(f.window + 1, 65536)
            else g.lowRtt == f.lowRtt + 1 && g.window == f.window
  {}

  // While the estimate stays within a tenth of the baseline, the window grows by one for every five
  // samples of the streak.
  lemma {:induction false} NearGrows(f: State, ss: seq<nat>)
    requires Near(f, ss) && f.lowRtt < 5 && f.window <= 65536
    ensures var g := Run(f, Samples(ss)); var n := f.lowRtt + |ss|;
            g.window == Min(f.window + n / 5, 65536) && g.lowRtt == n % 5
  {
    if ss == [] {
      assert Samples(ss) == [];
    } else {
      hide UpdateRtt, Run, Samples, NearAfter;
      var k := |ss| - 1;
      NearGrows(f, ss[..k]);
      RunSamples(f, ss);
      NearStep(Run(f, Samples(ss[..k])), ss[k]);
      FifthStep(f.lowRtt + |ss|);
    }
  }

  // Between a tenth above the baseline and twice the baseline the window stands still and the streak is
  // lost.
  lemma {:induction false} BetweenHolds(f: State, ss: seq<nat>)
    requires Between(f, ss)
    ensures var g := Run(f, Samples(ss)); g.window == f.window && (ss != [] ==> g.lowRtt == 0)
  {
    if ss == [] {
      assert Samples(ss) == [];
    } else {
      hide UpdateRtt, Run, Samples, BetweenAfter;
      var k := |ss| - 1;
      BetweenHolds(f, ss[..k]);
      RunSamples(f, ss);
      BetweenStep(Run(f, Samples(ss[..k])), ss[k]);
    }
  }

  lemma BetweenStep(f: State, s: nat)
    requires BetweenAfter(f, s)
    ensures UpdateRtt(f, s).window == f.window && UpdateRtt(f, s).lowRtt == 0
  {}

  // ---- loss and overhead

  // What is left of a distance after n steps of the average.
  function Remaining(d: real, n: nat): real { if n == 0 then d else 0.875 * Remaining(d, n - 1) }

  function Losses(x: real, n: nat): seq<Event> {
    if n == 0 then [] else Losses(x, n - 1) + [Loss(x)]
  }

  // n equal loss samples leave (7/8)^n of the distance to the sample, and touch nothing else.
  lemma {:induction false} LossApproaches(f: State, x: real, n: nat)
    requires 0.0 <= x <= 1.0
    ensures Run(f, Losses(x, n)) == f.(loss := x + Remaining(f.loss - x, n))
  {
    if n > 0 {
      LossApproaches(f, x, n - 1);
      var es := Losses(x, n);
      assert es[..|es| - 1] == Losses(x, n - 1);
    }
  }

  function Adapts(n: nat): seq<Event> {
    if n == 0 then [] else Adapts(n - 1) + [Fec]
  }

  function Clip(x: real): real { if x < 0.0 then 0.0 else if x > 0.5 then 0.5 else x }

  // Above 5% loss n adaptations add a tenth each, below 1% they take off a twentieth each, within the
  // limits; in between they change nothing.
  lemma {:induction false} OverheadFollowsLoss(f: State, n: nat)
    requires 0.0 <= f.fec <= 0.5
    ensures Run(f, Adapts(n)) ==
            f.(fec := Clip(f.fec + n as real * (if f.loss > 0.05 then 0.1 else if f.loss < 0.01 then -0.05 else 0.0)))
  {
    if n > 0 {
      OverheadFollowsLoss(f, n - 1);
      var es := Adapts(n);
      assert es[..|es| - 1] == Adapts(n - 1);
    }
  }
}
