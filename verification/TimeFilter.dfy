/** The two-state Kalman filter over the clock offset and its drift, in real arithmetic. */
module TimeFilters {

  /** A symmetric 2x2 covariance: offset variance, cross term, drift variance. */
  datatype Covariance = Covariance(oo: real, od: real, dd: real)

  ghost predicate PositiveSemidefinite(p: Covariance) {
    p.oo >= 0.0 && p.dd >= 0.0 && p.od * p.od <= p.oo * p.dd
  }

  /** F P F' + Q for F = [1 dt; 0 1] and Q = dt * diag(q, qd). */
  function Predict(p: Covariance, dt: real, q: real, qd: real): Covariance {
    var (fo, fd) := (p.oo + dt * p.od, p.od + dt * p.dd);  // the first row of F P
    Covariance(fo + fd * dt + dt * q, fd, p.dd + dt * qd)
  }

  function Scale(p: Covariance, factor: real): Covariance {
    Covariance(factor * p.oo, factor * p.od, factor * p.dd)
  }

  /** The Kalman gain K = P H' / (H P H' + r) for H = [1 0], one component. */
  function Gain(covariance: real, innovation: real): real
    requires innovation != 0.0
  {
    covariance / innovation
  }

  /** (I - K H) P. */
  function Update(p: Covariance, r: real): Covariance
    requires p.oo + r != 0.0
  {
    var (ko, kd) := (Gain(p.oo, p.oo + r), Gain(p.od, p.oo + r));
    Covariance(p.oo - ko * p.oo, p.od - kd * p.oo, p.dd - kd * p.od)
  }

  datatype Settings = Settings(processVariance: real, driftProcessVariance: real, forgetVarianceFactor: real,
                               adaptiveCutoff: real, significanceSquared: real, minSamples: nat)

  /** What Init makes of its arguments, provided the process deviation and the forget factor are not 0. */
  ghost predicate Usable(c: Settings) {
    c.processVariance > 0.0 && c.driftProcessVariance >= 0.0 && c.forgetVarianceFactor > 0.0 && c.minSamples <= 255
  }

  datatype Filter =
    | Empty
    | Running(lastUpdate: int, count: nat, offset: real, drift: real, p: Covariance, useDrift: bool)

  datatype Measurement = Measurement(value: int, maxError: int, time: int)

  function LastUpdate(f: Filter): int {
    if f.Empty? then 0 else f.lastUpdate
  }

  function Abs(x: real): (r: real)
    ensures r >= 0.0 && (r == x || r == -x)
  {
    if x < 0.0 then -x else x
  }

  function MeasurementVariance(m: Measurement): (r: real)
    ensures r >= 0.0
  {
    SquareIsNonNegative(m.maxError as real);
    m.maxError as real * m.maxError as real
  }

  function Residual(f: Filter, m: Measurement): real
    requires f.Running?
  {
    m.value as real - (f.offset + f.drift * (m.time - f.lastUpdate) as real)
  }

  predicate Forgets(f: Filter, c: Settings, m: Measurement)
    requires f.Running?
  {
    f.count >= c.minSamples && Abs(Residual(f, m)) > m.maxError as real * c.adaptiveCutoff
  }

  /** The covariance that the update step starts from. */
  function Prior(f: Filter, c: Settings, m: Measurement): Covariance
    requires f.Running?
  {
    var p := Predict(f.p, (m.time - f.lastUpdate) as real, c.processVariance, c.driftProcessVariance);
    if Forgets(f, c, m) then Scale(p, c.forgetVarianceFactor) else p
  }

  ghost predicate Healthy(f: Filter) {
    f.Running? ==>
      && 1 <= f.count <= 255
      && PositiveSemidefinite(f.p)
      && (f.count == 1 ==> f.p.od == 0.0 && f.p.dd == 0.0 && f.drift == 0.0)
  }

  /** One measurement. */
  function Step(f: Filter, c: Settings, m: Measurement): (g: Filter)
    requires Healthy(f) && Usable(c)
    ensures Healthy(g)
    ensures m.time > LastUpdate(f) ==> g.Running? && g.lastUpdate == m.time
  {
    if m.time <= LastUpdate(f) then f
    else if Starting(f) then Start(f, m)
    else
      var prior := Prior(f, c, m);
      UpdateStepIsSound(f, c, m);
      Corrected(f, c, m, prior, MeasurementVariance(m), Residual(f, m))
  }

  predicate Starting(f: Filter) {
    f.Empty? || f.count == 1
  }

  /** The first two measurements, whatever the settings: the offset, then the drift by finite differences. */
  function Start(f: Filter, m: Measurement): (g: Filter)
    requires Healthy(f) && Starting(f) && m.time > LastUpdate(f)
    ensures Healthy(g) && g.Running? && g.lastUpdate == m.time
    ensures g.count == if f.Empty? then 1 else 2
  {
    var r := MeasurementVariance(m);
    if f.Empty? then
      Running(m.time, 1, m.value as real, 0.0, Covariance(r, 0.0, 0.0), false)
    else
      var dt := (m.time - f.lastUpdate) as real;
      SquareIsPositive(dt);
      QuotientIsNonNegative(f.p.oo + r, dt * dt);
      var drift := (m.value as real - f.offset) / dt;
      Running(m.time, 2, m.value as real, drift, Covariance(r, 0.0, (f.p.oo + r) / (dt * dt)), f.useDrift)
  }

  /** The update by residual y from the predicted covariance `prior` and measurement variance r. */
  function Corrected(f: Filter, c: Settings, m: Measurement, prior: Covariance, r: real, y: real): Filter
    requires f.Running? && prior.oo + r != 0.0
  {
    var drift := f.drift + Gain(prior.od, prior.oo + r) * y;
    var post := Update(prior, r);
    Running(m.time, if f.count < c.minSamples then f.count + 1 else f.count,
            f.offset + f.drift * (m.time - f.lastUpdate) as real + Gain(prior.oo, prior.oo + r) * y, drift, post,
            drift * drift > c.significanceSquared * post.dd)
  }

  // ----- arithmetic on reals -----

  lemma SquareIsNonNegative(x: real)
    ensures x * x >= 0.0
  {
  }

  lemma SquareIsPositive(x: real)
    requires x > 0.0
    ensures x * x > 0.0
  {
  }

  lemma NonZeroSquare(x: real)
    requires x != 0.0
    ensures x * x > 0.0
  {
    if x < 0.0 {
      SquareIsPositive(-x);
    }
  }

  lemma ProductIsPositive(x: real, y: real, z: real)
    requires x > 0.0 && y > 0.0 && z == x * y
    ensures z > 0.0
  {
  }

  lemma SquareIsPositiveUnlessZero(x: real, xx: real)
    requires xx == x * x
    ensures xx > 0.0 <==> x != 0.0
  {
    if x > 0.0 {
      ProductIsPositive(x, x, xx);
    } else if x < 0.0 {
      ProductIsPositive(-x, -x, xx);
    } else {
      assert xx == 0.0;
    }
  }

  lemma ProductIsNonNegative(x: real, y: real)
    requires x >= 0.0 && y >= 0.0
    ensures x * y >= 0.0
  {
  }

  lemma QuotientIsNonNegative(x: real, y: real)
    requires x >= 0.0 && y > 0.0
    ensures x / y >= 0.0
  {
  }

  lemma ScaledOrder(x: real, y: real, f: real)
    requires x <= y && f >= 0.0
    ensures f * x <= f * y
  {
  }

  // ----- covariance -----

  /** z' P z >= 0 for z = (1, t): the variance of offset + t * drift. */
  lemma VarianceOfSum(p: Covariance, t: real)
    requires PositiveSemidefinite(p)
    ensures p.oo + 2.0 * t * p.od + t * t * p.dd >= 0.0
  {
    var v := p.oo + 2.0 * t * p.od + t * t * p.dd;
    if p.dd == 0.0 {
      if p.od != 0.0 {
        NonZeroSquare(p.od);
      }
    } else {
      // dd * v = (oo * dd - od^2) + (od + t * dd)^2
      var w := p.od + t * p.dd;
      SquareIsNonNegative(w);
      assert p.dd * v == (p.oo * p.dd - p.od * p.od) + w * w;
      NonNegativeFactor(v, p.dd);
    }
  }

  lemma PredictKeepsPsd(p: Covariance, dt: real, q: real, qd: real)
    requires PositiveSemidefinite(p) && dt > 0.0 && q >= 0.0 && qd >= 0.0
    ensures PositiveSemidefinite(Predict(p, dt, q, qd))
    ensures Predict(p, dt, q, qd).oo >= dt * q
  {
    var v, w := p.oo + 2.0 * dt * p.od + dt * dt * p.dd, p.od + dt * p.dd;
    var next := Predict(p, dt, q, qd);
    VarianceOfSum(p, dt);
    ProductIsNonNegative(dt, q);
    ProductIsNonNegative(dt, qd);
    assert next.oo == v + dt * q;
    // v * dd - w^2 = oo * dd - od^2, and the noise terms only add to it
    assert v * p.dd - w * w == p.oo * p.dd - p.od * p.od;
    ProductIsNonNegative(v, dt * qd);
    ProductIsNonNegative(dt * q, p.dd);
    ProductIsNonNegative(dt * q, dt * qd);
    assert next.oo * next.dd == v * p.dd + v * (dt * qd) + (dt * q) * p.dd + (dt * q) * (dt * qd);
  }

  lemma ScaleKeepsPsd(p: Covariance, f: real)
    requires PositiveSemidefinite(p) && f >= 0.0
    ensures PositiveSemidefinite(Scale(p, f))
  {
    ProductIsNonNegative(f, p.oo);
    ProductIsNonNegative(f, p.dd);
    SquareIsNonNegative(f);
    ScaledOrder(p.od * p.od, p.oo * p.dd, f * f);
    assert (f * p.od) * (f * p.od) == (f * f) * (p.od * p.od);
    assert (f * p.oo) * (f * p.dd) == (f * f) * (p.oo * p.dd);
  }

  /** The posterior written with the shrink factor r / (oo + r) in [0, 1]. */
  lemma UpdateShrinks(p: Covariance, r: real)
    requires p.oo > 0.0 && r >= 0.0
    ensures p.oo + r > 0.0
    ensures var u, s := Update(p, r), p.oo + r;
      && u.oo == (r / s) * p.oo
      && u.od == (r / s) * p.od
      && u.dd * s == p.dd * s - p.od * p.od
    ensures 0.0 <= r / (p.oo + r) <= 1.0 && 0.0 <= p.oo / (p.oo + r) <= 1.0
    ensures p.oo / (p.oo + r) + r / (p.oo + r) == 1.0
  {
    var s := p.oo + r;
    assert (p.oo / s) * s == p.oo && (r / s) * s == r && (p.od / s) * s == p.od;
    assert p.oo / s + r / s == (p.oo + r) / s == 1.0;
    QuotientIsNonNegative(r, s);
    QuotientIsNonNegative(p.oo, s);
    assert (p.od / s) * p.oo == p.od * (p.oo / s);
    assert p.od == p.od * (p.oo / s) + p.od * (r / s);
    assert p.oo == (p.oo / s) * p.oo + (r / s) * p.oo;
    assert ((p.od / s) * p.od) * s == ((p.od / s) * s) * p.od;
  }

  lemma UpdateKeepsPsd(p: Covariance, r: real)
    requires PositiveSemidefinite(p) && p.oo > 0.0 && r >= 0.0
    ensures p.oo + r > 0.0
    ensures PositiveSemidefinite(Update(p, r))
    ensures Update(p, r).oo <= p.oo && Update(p, r).oo <= r
  {
    UpdateShrinks(p, r);
    var u, s := Update(p, r), p.oo + r;
    var k, det := r / s, p.oo * p.dd - p.od * p.od;
    ScaledOrder(k, 1.0, p.oo);
    ScaledOrder(p.oo / s, 1.0, r);
    assert (p.oo / s) * r == k * p.oo;
    ProductIsNonNegative(k, p.oo);
    ProductIsNonNegative(p.dd, r);
    assert u.dd * s == det + p.dd * r;
    NonNegativeFactor(u.dd, s);
    DeterminantShrinks(p.oo, p.od, p.dd, r, k, u.dd);
    ProductIsNonNegative(k, det);
  }

  /** det(posterior) = k * det(prior). */
  lemma DeterminantShrinks(oo: real, od: real, dd: real, r: real, k: real, dd': real)
    requires oo + r > 0.0 && k * (oo + r) == r
    requires dd' * (oo + r) == dd * (oo + r) - od * od
    ensures (k * oo) * dd' - (k * od) * (k * od) == k * (oo * dd - od * od)
  {
    var s := oo + r;
    var left, right := (k * oo) * dd' - (k * od) * (k * od), k * (oo * dd - od * od);
    assert (k * oo) * dd' * s == (k * oo) * (dd' * s) == k * oo * (dd * s) - k * oo * (od * od);
    assert (k * od) * (k * od) * s == (k * od) * od * (k * s) == k * r * (od * od);
    assert k * oo * (dd * s) == s * (k * (oo * dd));
    assert k * oo * (od * od) + k * r * (od * od) == s * (k * (od * od));
    assert left * s == right * s;
    SameFactor(left, right, s);
  }

  lemma SameFactor(x: real, y: real, s: real)
    requires s != 0.0 && x * s == y * s
    ensures x == y
  {
    assert (x - y) * s == 0.0;
  }

  lemma NonNegativeFactor(x: real, s: real)
    requires s > 0.0 && x * s >= 0.0
    ensures x >= 0.0
  {
  }

  /** Prediction and forgetting keep the covariance positive semidefinite and give the offset a positive variance,
      so that the innovation denominator is positive whatever the measurement. */
  lemma PriorIsSound(f: Filter, c: Settings, m: Measurement)
    requires Healthy(f) && Usable(c) && f.Running? && m.time > f.lastUpdate
    ensures PositiveSemidefinite(Prior(f, c, m)) && Prior(f, c, m).oo > 0.0
  {
    var dt := (m.time - f.lastUpdate) as real;
    var p := Predict(f.p, dt, c.processVariance, c.driftProcessVariance);
    PredictKeepsPsd(f.p, dt, c.processVariance, c.driftProcessVariance);
    PositiveProduct(dt, c.processVariance);
    if Forgets(f, c, m) {
      ScaleKeepsPsd(p, c.forgetVarianceFactor);
      PositiveProduct(c.forgetVarianceFactor, p.oo);
    }
  }

  lemma PositiveProduct(x: real, y: real)
    requires x > 0.0 && y > 0.0
    ensures x * y > 0.0
  {
  }

  /** The update step: positive innovation denominator, gain in [0, 1], and an offset variance at most both the
      predicted variance and the measurement variance. */
  lemma UpdateStepIsSound(f: Filter, c: Settings, m: Measurement)
    requires Healthy(f) && Usable(c) && f.Running? && m.time > f.lastUpdate
    ensures var prior, r := Prior(f, c, m), MeasurementVariance(m);
      && prior.oo + r > 0.0
      && 0.0 <= Gain(prior.oo, prior.oo + r) <= 1.0
      && PositiveSemidefinite(Update(prior, r))
      && Update(prior, r).oo <= prior.oo
      && Update(prior, r).oo <= r
  {
    PriorIsSound(f, c, m);
    UpdateShrinks(Prior(f, c, m), MeasurementVariance(m));
    UpdateKeepsPsd(Prior(f, c, m), MeasurementVariance(m));
  }

  // ----- what a step means for the estimate -----

  /** The variance of x * offset + y * drift. */
  ghost function Form(p: Covariance, x: real, y: real): real {
    x * x * p.oo + 2.0 * (x * y) * p.od + y * y * p.dd
  }

  /** Letting dt pass turns the combination (x, y) into (x, x * dt + y), and the noise of both states adds to it. */
  lemma PredictionPropagates(p: Covariance, dt: real, q: real, qd: real, x: real, y: real)
    ensures Form(Predict(p, dt, q, qd), x, y) == Form(p, x, x * dt + y) + dt * (x * x * q + y * y * qd)
  {
    var z := x * dt;
    assert x * x * (dt * p.od) == x * z * p.od && x * x * ((p.od + dt * p.dd) * dt) == x * z * p.od + z * z * p.dd;
    assert (x * y) * (dt * p.dd) == z * y * p.dd;
    assert x * (z + y) == x * z + x * y && (z + y) * (z + y) == z * z + 2.0 * (z * y) + y * y;
    assert x * x * (dt * q) == dt * (x * x * q) && y * y * (dt * qd) == dt * (y * y * qd);
  }

  /** How far the measurement lies from the line through the filter's last state. */
  ghost function Distance(f: Filter, m: Measurement): real
    requires f.Running?
  {
    m.value as real - f.offset - f.drift * (m.time as real - f.lastUpdate as real)
  }

  /** Forgetting needs enough samples and a measurement off the line by more than so many times its error. */
  ghost predicate Doubted(f: Filter, c: Settings, m: Measurement)
    requires f.Running?
  {
    && f.count >= c.minSamples
    && (Distance(f, m) > m.maxError as real * c.adaptiveCutoff || -Distance(f, m) > m.maxError as real * c.adaptiveCutoff)
  }

  /** The variance of every combination of offset and drift that the update starts from. */
  lemma PriorPropagates(f: Filter, c: Settings, m: Measurement, x: real, y: real)
    requires f.Running?
    ensures var dt := m.time as real - f.lastUpdate as real;
      var v := Form(f.p, x, x * dt + y) + dt * (x * x * c.processVariance + y * y * c.driftProcessVariance);
      Form(Prior(f, c, m), x, y) == if Doubted(f, c, m) then c.forgetVarianceFactor * v else v
  {
    hide Predict, Scale, Form, Forgets, Doubted;
    DoubtedIsForgotten(f, c, m);
    var dt := (m.time - f.lastUpdate) as real;
    var p := Predict(f.p, dt, c.processVariance, c.driftProcessVariance);
    PredictionPropagates(f.p, dt, c.processVariance, c.driftProcessVariance, x, y);
    ScaledForm(p, c.forgetVarianceFactor, x, y);
  }

  lemma DoubtedIsForgotten(f: Filter, c: Settings, m: Measurement)
    requires f.Running?
    ensures Forgets(f, c, m) <==> Doubted(f, c, m)
  {
  }

  lemma ScaledForm(p: Covariance, factor: real, x: real, y: real)
    ensures Form(Scale(p, factor), x, y) == factor * Form(p, x, y)
  {
    assert x * x * (factor * p.oo) == factor * (x * x * p.oo);
    assert (x * y) * (factor * p.od) == factor * ((x * y) * p.od);
    assert y * y * (factor * p.dd) == factor * (y * y * p.dd);
  }

  /** Correcting offset and drift by the gains k and l times the distance leaves, of an error (e, e') and a measurement
      noise v, (1 - k) e - k v and e' - l e - l v: the variance of their combination. */
  ghost function ErrorVariance(p: Covariance, r: real, k: real, l: real, x: real, y: real): real {
    var w := x * k + y * l;
    Form(p, x - w, y) + r * (w * w)
  }

  /** By how much other gains than those of the update differ for a combination. */
  ghost function Miss(p: Covariance, r: real, k: real, l: real, x: real, y: real): real
    requires p.oo + r > 0.0
  {
    x * k + y * l - (x * Gain(p.oo, p.oo + r) + y * Gain(p.od, p.oo + r))
  }

  /** No gains leave any combination of offset and drift less uncertain than those of the update, and all gains that
      differ for it leave it more uncertain. */
  lemma UpdateIsOptimal(p: Covariance, r: real, k: real, l: real, x: real, y: real)
    requires p.oo + r > 0.0
    ensures var d := Miss(p, r, k, l, x, y);
      && ErrorVariance(p, r, k, l, x, y) == Form(Update(p, r), x, y) + (p.oo + r) * (d * d)
      && Form(Update(p, r), x, y) <= ErrorVariance(p, r, k, l, x, y)
      && (Form(Update(p, r), x, y) == ErrorVariance(p, r, k, l, x, y) <==> d == 0.0)
  {
    hide Form, Update, ErrorVariance, Miss;
    VarianceOfGains(p, r, k, l, x, y);
    Excess(p.oo + r, Miss(p, r, k, l, x, y));
  }

  lemma NoMiss(p: Covariance, r: real, x: real, y: real)
    requires p.oo + r > 0.0
    ensures Miss(p, r, Gain(p.oo, p.oo + r), Gain(p.od, p.oo + r), x, y) == 0.0
  {
    hide Gain;
  }

  lemma VarianceOfGains(p: Covariance, r: real, k: real, l: real, x: real, y: real)
    requires p.oo + r > 0.0
    ensures var d := Miss(p, r, k, l, x, y);
      ErrorVariance(p, r, k, l, x, y) == Form(Update(p, r), x, y) + (p.oo + r) * (d * d)
  {
    hide Form, Update, ErrorVariance, Miss;
    var w, b := Shares(p, r, k, l, x, y);
    CompletedSquare(p, r, p.oo + r, x, y, w, b);
    SameSquare(p.oo + r, w - b, Miss(p, r, k, l, x, y));
  }

  lemma SameSquare(s: real, x: real, y: real)
    requires x == y
    ensures s * (x * x) == s * (y * y)
  {
  }

  /** How much of the innovation other gains and those of the update put into a combination. */
  lemma Shares(p: Covariance, r: real, k: real, l: real, x: real, y: real) returns (w: real, b: real)
    requires p.oo + r > 0.0
    ensures
      && ErrorVariance(p, r, k, l, x, y) == Form(p, x - w, y) + r * (w * w)
      && Form(Update(p, r), x, y) == Form(p, x, y) - (p.oo + r) * (b * b)
      && (p.oo + r) * b == x * p.oo + y * p.od
      && w - b == Miss(p, r, k, l, x, y)
  {
    hide Gain, Form, Update, Miss, ErrorVariance;
    w, b := TwoShares(p, r, k, l, x, y);
    FormOfUpdate(p, r, x, y, b);
  }

  lemma FormOfUpdate(p: Covariance, r: real, x: real, y: real, b: real)
    requires p.oo + r > 0.0 && b == x * Gain(p.oo, p.oo + r) + y * Gain(p.od, p.oo + r)
    ensures Form(Update(p, r), x, y) == Form(p, x, y) - (p.oo + r) * (b * b)
    ensures (p.oo + r) * b == x * p.oo + y * p.od
  {
    hide Gain, Form;
    GainTimes(p.oo, p.oo + r);
    GainTimes(p.od, p.oo + r);
    UpdatedForm(p, Update(p, r), p.oo + r, Gain(p.oo, p.oo + r), Gain(p.od, p.oo + r), x, y, b);
  }

  lemma TwoShares(p: Covariance, r: real, k: real, l: real, x: real, y: real) returns (w: real, b: real)
    requires p.oo + r > 0.0
    ensures ErrorVariance(p, r, k, l, x, y) == Form(p, x - w, y) + r * (w * w)
    ensures b == x * Gain(p.oo, p.oo + r) + y * Gain(p.od, p.oo + r) && w - b == Miss(p, r, k, l, x, y)
  {
    hide Gain, Form;
    w, b := x * k + y * l, x * Gain(p.oo, p.oo + r) + y * Gain(p.od, p.oo + r);
  }

  lemma Excess(s: real, d: real)
    requires s > 0.0
    ensures s * (d * d) >= 0.0 && (s * (d * d) == 0.0 <==> d == 0.0)
  {
    SquareIsNonNegative(d);
    SquareIsPositiveUnlessZero(d, d * d);
    PositiveFactor(s, d * d);
  }

  lemma UpdatedForm(p: Covariance, post: Covariance, s: real, ko: real, kd: real, x: real, y: real, b: real)
    requires ko * s == p.oo && kd * s == p.od && b == x * ko + y * kd
    requires post == Covariance(p.oo - ko * p.oo, p.od - kd * p.oo, p.dd - kd * p.od)
    ensures Form(post, x, y) == Form(p, x, y) - s * (b * b)
    ensures s * b == x * p.oo + y * p.od
  {
    assert s * b == x * (s * ko) + y * (s * kd);
    assert b * (x * p.oo) == x * x * (ko * p.oo) + (x * y) * (kd * p.oo);
    assert kd * p.oo == kd * (s * ko) == ko * (s * kd) == ko * p.od;
    assert b * (y * p.od) == (x * y) * (ko * p.od) + y * y * (kd * p.od);
    assert s * (b * b) == b * (s * b) == b * (x * p.oo) + b * (y * p.od);
  }

  lemma CompletedSquare(p: Covariance, r: real, s: real, x: real, y: real, w: real, b: real)
    requires s == p.oo + r && s * b == x * p.oo + y * p.od
    ensures Form(p, x - w, y) + r * (w * w) == Form(p, x, y) - s * (b * b) + s * ((w - b) * (w - b))
  {
    assert (x - w) * (x - w) * p.oo == x * x * p.oo - 2.0 * (w * (x * p.oo)) + w * w * p.oo;
    assert ((x - w) * y) * p.od == (x * y) * p.od - w * (y * p.od);
    assert w * (s * b) == w * (x * p.oo) + w * (y * p.od);
    assert s * (w * w) == w * w * p.oo + r * (w * w);
    assert s * ((w - b) * (w - b)) == s * (w * w) - 2.0 * (w * (s * b)) + s * (b * b);
  }

  /** `post` is what the gains k and l leave of the variance of every combination, and no others leave less. */
  ghost predicate LeastUncertain(post: Covariance, p: Covariance, r: real, k: real, l: real) {
    && (forall x: real, y: real :: Form(post, x, y) == ErrorVariance(p, r, k, l, x, y))
    && (forall k': real, l': real, x: real, y: real :: Form(post, x, y) <= ErrorVariance(p, r, k', l', x, y))
  }

  /** A step of an established filter: the state is moved by optimal gains times the distance of the measurement, so
      the offset goes towards the measurement, by the share that its own variance has of the sum, and never past it. */
  lemma StepIsOptimal(f: Filter, c: Settings, m: Measurement) returns (k: real, l: real)
    requires Healthy(f) && Usable(c) && f.Running? && f.count >= 2 && m.time > f.lastUpdate
    ensures var g, p, y, z := Step(f, c, m), Prior(f, c, m), Distance(f, m), m.value as real;
      var r := m.maxError as real * m.maxError as real;
      && p.oo > 0.0 && r >= 0.0
      && (z - g.offset) * (p.oo + r) == r * y && (g.drift - f.drift) * (p.oo + r) == p.od * y
      && (y >= 0.0 ==> z - y <= g.offset <= z) && (y <= 0.0 ==> z <= g.offset <= z - y)
      && g.offset == z - y + k * y && g.drift == f.drift + l * y
      && LeastUncertain(g.p, p, r, k, l)
  {
    hide Step, Prior, Distance, Healthy, LeastUncertain, MeasurementVariance;
    var g, p, r := Step(f, c, m), Prior(f, c, m), MeasurementVariance(m);
    k, l := StepByGains(f, c, m);
    OptimalForAll(p, r, k, l);
    Moved(m.value as real, Distance(f, m), k, l, p.oo, p.od, r, g.offset, f.drift, g.drift);
    VarianceIsSquare(m);
  }

  lemma VarianceIsSquare(m: Measurement)
    ensures MeasurementVariance(m) == m.maxError as real * m.maxError as real
  {
  }

  lemma StepByGains(f: Filter, c: Settings, m: Measurement) returns (k: real, l: real)
    requires Healthy(f) && Usable(c) && f.Running? && f.count >= 2 && m.time > f.lastUpdate
    ensures var g, p, r, y := Step(f, c, m), Prior(f, c, m), MeasurementVariance(m), Distance(f, m);
      && p.oo > 0.0 && r >= 0.0 && k * (p.oo + r) == p.oo && l * (p.oo + r) == p.od
      && k == Gain(p.oo, p.oo + r) && l == Gain(p.od, p.oo + r)
      && g.Running? && g.p == Update(p, r)
      && g.offset == m.value as real - y + k * y && g.drift == f.drift + l * y
  {
    hide Prior, MeasurementVariance, Update, Gain, Healthy, Step;
    var p, r := Prior(f, c, m), MeasurementVariance(m);
    PriorIsSound(f, c, m);
    StepIsCorrected(f, c, m);
    assert Residual(f, m) == Distance(f, m);
    k, l := Gain(p.oo, p.oo + r), Gain(p.od, p.oo + r);
    GainTimes(p.oo, p.oo + r);
    GainTimes(p.od, p.oo + r);
  }

  lemma GainTimes(x: real, s: real)
    requires s != 0.0
    ensures Gain(x, s) * s == x
  {
  }

  lemma OptimalForAll(p: Covariance, r: real, k: real, l: real)
    requires p.oo + r > 0.0 && k == Gain(p.oo, p.oo + r) && l == Gain(p.od, p.oo + r)
    ensures LeastUncertain(Update(p, r), p, r, k, l)
  {
    hide Form, Update, ErrorVariance, Gain, Miss;
    forall k': real, l': real, u: real, v: real ensures Form(Update(p, r), u, v) <= ErrorVariance(p, r, k', l', u, v) {
      UpdateIsOptimal(p, r, k', l', u, v);
    }
    forall u: real, v: real ensures Form(Update(p, r), u, v) == ErrorVariance(p, r, k, l, u, v) {
      UpdateIsOptimal(p, r, k, l, u, v);
      NoMiss(p, r, u, v);
    }
  }

  lemma Moved(z: real, y: real, k: real, l: real, oo: real, od: real, r: real, offset: real, drift: real, drift': real)
    requires oo > 0.0 && r >= 0.0 && k * (oo + r) == oo && l * (oo + r) == od
    requires offset == z - y + k * y && drift' == drift + l * y
    ensures (z - offset) * (oo + r) == r * y && (drift' - drift) * (oo + r) == od * y
    ensures y >= 0.0 ==> z - y <= offset <= z
    ensures y <= 0.0 ==> z <= offset <= z - y
  {
    assert (z - offset) * (oo + r) == y * (oo + r) - y * (k * (oo + r)) == r * y;
    assert (drift' - drift) * (oo + r) == y * (l * (oo + r));
    Factor(k, oo + r, oo);
    ScaledBetween(k, y);
  }

  lemma Factor(k: real, s: real, x: real)
    requires s > 0.0 && k * s == x && 0.0 <= x <= s
    ensures 0.0 <= k <= 1.0
  {
    NonNegativeFactor(k, s);
    assert (1.0 - k) * s == s - x;
    NonNegativeFactor(1.0 - k, s);
  }

  lemma ScaledBetween(k: real, y: real)
    requires 0.0 <= k <= 1.0
    ensures y >= 0.0 ==> 0.0 <= k * y <= y
    ensures y <= 0.0 ==> y <= k * y <= 0.0
  {
    if y >= 0.0 {
      ScaledOrder(0.0, k, y);
      ScaledOrder(k, 1.0, y);
    } else {
      ScaledOrder(0.0, k, -y);
      ScaledOrder(k, 1.0, -y);
    }
  }

  /** The first two measurements: the newest value with its own error, and the slope between both with the error of a
      difference. */
  lemma FirstTwoMeasurements(c: Settings, m1: Measurement, m2: Measurement)
    requires Usable(c) && 0 < m1.time < m2.time
    ensures var f, dt := Run(Empty, c, [m1, m2]), m2.time as real - m1.time as real;
      && f.Running? && f.count == 2 && f.lastUpdate == m2.time && !f.useDrift
      && f.offset == m2.value as real && f.drift * dt == m2.value as real - m1.value as real
      && f.p.oo == m2.maxError as real * m2.maxError as real && f.p.od == 0.0
      && f.p.dd * (dt * dt) == m1.maxError as real * m1.maxError as real + m2.maxError as real * m2.maxError as real
  {
    var f1 := Step(Empty, c, m1);
    var f2 := Step(f1, c, m2);
    assert [m1, m2][1..] == [m2] && [m2][1..] == [];
    assert Run(f2, c, []) == f2;
    assert Run(f1, c, [m2]) == f2;
    var dt := (m2.time - m1.time) as real;
    SquareIsPositive(dt);
    assert (MeasurementVariance(m1) + MeasurementVariance(m2)) / (dt * dt) * (dt * dt)
        == MeasurementVariance(m1) + MeasurementVariance(m2);
  }

  // ----- runs -----

  function Run(f: Filter, c: Settings, ms: seq<Measurement>): (g: Filter)
    requires Healthy(f) && Usable(c)
    ensures Healthy(g)
    decreases |ms|
  {
    if ms == [] then f else Run(Step(f, c, ms[0]), c, ms[1..])
  }

  /** Over every run from Reset: positive semidefinite covariance, and for every further accepted measurement a
      positive innovation denominator, a gain in [0, 1] and an offset variance bounded by both its sources. */
  lemma EveryRunIsSound(c: Settings, ms: seq<Measurement>, m: Measurement)
    requires Usable(c)
    ensures var f := Run(Empty, c, ms);
      && (f.Running? ==> PositiveSemidefinite(f.p))
      && (f.Running? && f.count >= 2 && m.time > f.lastUpdate ==>
            var prior, r := Prior(f, c, m), MeasurementVariance(m);
            && prior.oo + r > 0.0
            && 0.0 <= Gain(prior.oo, prior.oo + r) <= 1.0
            && Step(f, c, m).p.oo <= prior.oo
            && Step(f, c, m).p.oo <= r)
  {
    var f := Run(Empty, c, ms);
    if f.Running? && f.count >= 2 && m.time > f.lastUpdate {
      UpdateStepIsSound(f, c, m);
    }
  }

  /** The process noise matters: after two exact measurements the next denominator is zero exactly if there is no
      process noise and the next measurement claims to be exact, too. */
  lemma DenominatorVanishesWithoutNoise(c: Settings, m1: Measurement, m2: Measurement, m3: Measurement)
    requires c.processVariance >= 0.0 && c.forgetVarianceFactor > 0.0
    requires 0 < m1.time < m2.time < m3.time && m1.maxError == 0 && m2.maxError == 0
    ensures var f := Start(Start(Empty, m1), m2);
      Prior(f, c, m3).oo + MeasurementVariance(m3) == 0.0 <==> c.processVariance == 0.0 && m3.maxError == 0
  {
    hide Forgets, Residual;
    var f := Start(Start(Empty, m1), m2);
    var dt := (m3.time - m2.time) as real;
    assert f.p.oo == 0.0 && f.p.od == 0.0 && f.p.dd == 0.0;
    var p := Predict(f.p, dt, c.processVariance, c.driftProcessVariance);
    assert p.oo == dt * c.processVariance;
    PositiveFactor(dt, c.processVariance);
    PositiveFactor(c.forgetVarianceFactor, p.oo);
    SquareIsPositiveUnlessZero(m3.maxError as real, MeasurementVariance(m3));
    assert m3.maxError as real == 0.0 <==> m3.maxError == 0;
  }

  lemma PositiveFactor(x: real, y: real)
    requires x > 0.0 && y >= 0.0
    ensures x * y >= 0.0 && (x * y == 0.0 <==> y == 0.0)
  {
    if y > 0.0 {
      PositiveProduct(x, y);
    }
  }

  // ----- how many measurements count -----

  function Count(f: Filter): nat {
    if f.Empty? then 0 else f.count
  }

  /** How many of the measurements have a later time stamp than all before them. */
  function Accepted(last: int, ms: seq<Measurement>): nat
    decreases |ms|
  {
    if ms == [] then 0
    else if ms[0].time > last then 1 + Accepted(ms[0].time, ms[1..])
    else Accepted(last, ms[1..])
  }

  /** Where counting stops. */
  function CountLimit(c: Settings): nat {
    if c.minSamples < 2 then 2 else c.minSamples
  }

  lemma {:induction false} CountOfRun(f: Filter, c: Settings, ms: seq<Measurement>)
    requires Healthy(f) && Usable(c) && Count(f) <= CountLimit(c)
    ensures Count(Run(f, c, ms))
         == if Count(f) + Accepted(LastUpdate(f), ms) <= CountLimit(c) then Count(f) + Accepted(LastUpdate(f), ms)
            else CountLimit(c)
    decreases |ms|
  {
    hide Healthy, Start, Corrected, Prior, MeasurementVariance, Residual;
    if ms != [] {
      CountOfStep(f, c, ms[0]);
      CountOfRun(Step(f, c, ms[0]), c, ms[1..]);
    }
  }

  lemma CountOfStep(f: Filter, c: Settings, m: Measurement)
    requires Healthy(f) && Usable(c)
    ensures LastUpdate(Step(f, c, m)) == if m.time > LastUpdate(f) then m.time else LastUpdate(f)
    ensures Count(Step(f, c, m)) == Count(f) + if m.time > LastUpdate(f) && Count(f) < CountLimit(c) then 1 else 0
  {
    hide Start, Update, Prior, MeasurementVariance, Residual, Gain;
    if m.time > LastUpdate(f) && !Starting(f) {
      UpdateStepIsSound(f, c, m);
    }
  }

  /** The filter counts as full for n from the n-th accepted measurement on, and never for an n beyond the limit. */
  lemma FullFromTheNthSample(c: Settings, ms: seq<Measurement>, n: nat)
    requires Usable(c)
    ensures Count(Run(Empty, c, ms)) >= n <==> n <= Accepted(0, ms) && n <= CountLimit(c)
  {
    CountOfRun(Empty, c, ms);
  }

  /** Over any run: the drift is used from the third accepted measurement on, and then exactly if its square exceeds
      its variance by the significance factor. */
  lemma {:induction false} DriftUsedIfSignificant(f: Filter, c: Settings, ms: seq<Measurement>)
    requires Healthy(f) && Usable(c) && ms != []
    requires ms[|ms| - 1].time > LastUpdate(Run(f, c, ms[..|ms| - 1]))
    ensures var before, g := Run(f, c, ms[..|ms| - 1]), Run(f, c, ms);
      && g.Running?
      && (Count(before) >= 2 ==> (g.useDrift <==> g.drift * g.drift > c.significanceSquared * g.p.dd))
      && (Count(before) == 1 ==> g.useDrift == before.useDrift) && (Count(before) == 0 ==> !g.useDrift)
  {
    var m, before := ms[|ms| - 1], Run(f, c, ms[..|ms| - 1]);
    assert ms[..|ms| - 1] + [m] == ms;
    RunAppended(f, c, ms[..|ms| - 1], m);
    hide Prior, MeasurementVariance, Residual, Update, Gain, PositiveSemidefinite, Run;
    if Count(before) >= 2 {
      StepIsCorrected(before, c, m);
    }
  }

  /** After a single measurement the drift is not in use. */
  predicate DriftAwaitsSecond(f: Filter) {
    f.Running? && f.count == 1 ==> !f.useDrift
  }

  lemma StepAwaitsSecond(f: Filter, c: Settings, m: Measurement)
    requires Healthy(f) && Usable(c) && DriftAwaitsSecond(f)
    ensures DriftAwaitsSecond(Step(f, c, m))
  {
    CountOfStep(f, c, m);
    hide Corrected, Prior, Residual, MeasurementVariance, PositiveSemidefinite, Update, Gain;
  }

  lemma {:induction false} RunAppended(f: Filter, c: Settings, ms: seq<Measurement>, m: Measurement)
    requires Healthy(f) && Usable(c)
    ensures Run(f, c, ms + [m]) == Step(Run(f, c, ms), c, m)
    decreases |ms|
  {
    hide Step, Healthy;
    if ms == [] {
      assert [m][1..] == [] && [] + [m] == [m];
    } else {
      assert (ms + [m])[0] == ms[0] && (ms + [m])[1..] == ms[1..] + [m];
      RunAppended(Step(f, c, ms[0]), c, ms[1..], m);
    }
  }

  // ----- exact measurements of an affine offset -----

  /** m reports the true offset a + b * t without error. */
  ghost predicate Exact(m: Measurement, a: real, b: real) {
    m.value as real == a + b * m.time as real
  }

  ghost predicate Tracks(f: Filter, a: real, b: real) {
    f.Running? ==>
      && f.offset == a + b * f.lastUpdate as real
      && (f.count >= 2 ==> f.drift == b)
  }

  lemma ExactStep(f: Filter, c: Settings, m: Measurement, a: real, b: real)
    requires Healthy(f) && Usable(c) && c.adaptiveCutoff >= 0.0
    requires Tracks(f, a, b) && Exact(m, a, b) && m.maxError >= 0
    ensures Tracks(Step(f, c, m), a, b)
    ensures f.Running? && f.count >= 2 ==> Residual(f, m) == 0.0 && !Forgets(f, c, m)
  {
    hide Prior, MeasurementVariance, Update, PositiveSemidefinite, Corrected;
    if f.Running? {
      ExactArithmetic(f.lastUpdate, m.time, a, b);
      if f.count >= 2 {
        ExactResidual(f, c, m, a, b);
        if m.time > f.lastUpdate {
          UpdateStepIsSound(f, c, m);
          CorrectedByNothing(f, c, m, Prior(f, c, m), MeasurementVariance(m));
        }
      }
    }
  }

  lemma ExactResidual(f: Filter, c: Settings, m: Measurement, a: real, b: real)
    requires f.Running? && f.offset == a + b * f.lastUpdate as real && f.drift == b
    requires Exact(m, a, b) && m.maxError >= 0 && c.adaptiveCutoff >= 0.0
    ensures Residual(f, m) == 0.0 && !Forgets(f, c, m)
  {
    ExactArithmetic(f.lastUpdate, m.time, a, b);
    ProductIsNonNegative(m.maxError as real, c.adaptiveCutoff);
  }

  lemma ExactArithmetic(t0: int, t1: int, a: real, b: real)
    ensures (a + b * t0 as real) + b * (t1 - t0) as real == a + b * t1 as real
    ensures t1 > t0 ==> ((a + b * t1 as real) - (a + b * t0 as real)) / (t1 - t0) as real == b
  {
    var d := (t1 - t0) as real;
    assert d == t1 as real - t0 as real;
    assert b * t1 as real - b * t0 as real == b * d;
    if t1 > t0 {
      assert b * d / d == b;
    }
  }

  lemma CorrectedByNothing(f: Filter, c: Settings, m: Measurement, prior: Covariance, r: real)
    requires f.Running? && prior.oo + r != 0.0
    ensures var g := Corrected(f, c, m, prior, r, 0.0);
      && g.Running? && g.lastUpdate == m.time && g.drift == f.drift
      && g.count == (if f.count < c.minSamples then f.count + 1 else f.count)
      && g.offset == f.offset + f.drift * (m.time - f.lastUpdate) as real
  {
  }

  /** No accepted measurement of the run multiplies the covariance by the forget factor. */
  ghost predicate NeverForgets(f: Filter, c: Settings, ms: seq<Measurement>)
    requires Healthy(f) && Usable(c)
    decreases |ms|
  {
    ms != [] ==>
      && !(f.Running? && f.count >= 2 && ms[0].time > f.lastUpdate && Forgets(f, c, ms[0]))
      && NeverForgets(Step(f, c, ms[0]), c, ms[1..])
  }

  /** If the true offset is affine in client time and every measurement is exact, the filter is exact from the
      second accepted measurement on, and forgetting never triggers. */
  lemma {:induction false} ExactRun(f: Filter, c: Settings, ms: seq<Measurement>, a: real, b: real)
    requires Healthy(f) && Usable(c) && c.adaptiveCutoff >= 0.0 && Tracks(f, a, b)
    requires forall m :: m in ms ==> Exact(m, a, b) && m.maxError >= 0
    ensures Tracks(Run(f, c, ms), a, b)
    ensures NeverForgets(f, c, ms)
    decreases |ms|
  {
    if ms != [] {
      ExactStep(f, c, ms[0], a, b);
      ExactRun(Step(f, c, ms[0]), c, ms[1..], a, b);
    }
  }

  // ----- shifting all measurements by a constant -----

  function Shifted(f: Filter, k: int): Filter {
    if f.Empty? then f else f.(offset := f.offset + k as real)
  }

  function ShiftedMeasurements(ms: seq<Measurement>, k: int): (r: seq<Measurement>)
    ensures |r| == |ms|
  {
    if ms == [] then [] else [ms[0].(value := ms[0].value + k)] + ShiftedMeasurements(ms[1..], k)
  }

  lemma ShiftedVariance(m: Measurement, k: int)
    ensures MeasurementVariance(m.(value := m.value + k)) == MeasurementVariance(m)
  {
  }

  lemma ShiftedPrior(f: Filter, c: Settings, m: Measurement, k: int)
    requires f.Running?
    ensures var f', m' := Shifted(f, k), m.(value := m.value + k);
      && Residual(f', m') == Residual(f, m)
      && Prior(f', c, m') == Prior(f, c, m)
  {
    assert Residual(Shifted(f, k), m.(value := m.value + k)) == Residual(f, m);
  }

  lemma ShiftedStep(f: Filter, c: Settings, m: Measurement, k: int)
    requires Healthy(f) && Usable(c)
    ensures Step(Shifted(f, k), c, m.(value := m.value + k)) == Shifted(Step(f, c, m), k)
  {
    hide Prior, MeasurementVariance, Residual, Forgets, Update, Corrected, PositiveSemidefinite;
    ShiftedVariance(m, k);
    if f.Running? && m.time > f.lastUpdate {
      ShiftedPrior(f, c, m, k);
      if f.count == 1 {
        assert (m.value + k) as real - (f.offset + k as real) == m.value as real - f.offset;
      } else {
        UpdateStepIsSound(f, c, m);
        CorrectedShift(f, c, m, Prior(f, c, m), MeasurementVariance(m), Residual(f, m), k);
      }
    }
  }

  lemma CorrectedShift(f: Filter, c: Settings, m: Measurement, prior: Covariance, r: real, y: real, k: int)
    requires f.Running? && prior.oo + r != 0.0
    ensures Corrected(Shifted(f, k), c, m.(value := m.value + k), prior, r, y)
         == Shifted(Corrected(f, c, m, prior, r, y), k)
  {
  }

  /** Adding a constant to all measurements of any run shifts the offset by it and changes nothing else. */
  lemma {:induction false} ShiftedRun(f: Filter, c: Settings, ms: seq<Measurement>, k: int)
    requires Healthy(f) && Usable(c)
    ensures Run(Shifted(f, k), c, ShiftedMeasurements(ms, k)) == Shifted(Run(f, c, ms), k)
    decreases |ms|
  {
    if ms != [] {
      ShiftedStep(f, c, ms[0], k);
      var ms' := ShiftedMeasurements(ms, k);
      assert ms'[0] == ms[0].(value := ms[0].value + k) && ms'[1..] == ShiftedMeasurements(ms[1..], k);
      ShiftedRun(Step(f, c, ms[0]), c, ms[1..], k);
    }
  }

  // ----- the filter as the code holds it -----

  /** Round half away from zero. */
  function Round(x: real): int {
    if x >= 0.0 then (x + 0.5).Floor else -(-x + 0.5).Floor
  }

  lemma RoundIsNearest(x: real)
    ensures -0.5 <= Round(x) as real - x <= 0.5
    ensures x >= 0.0 ==> Round(x) as real - x > -0.5
    ensures Round(-x) == -Round(x)
  {
  }

  /** The drift that time conversion uses: only a significant one. */
  function EffectiveDrift(f: Filter): real {
    if f.Running? && f.useDrift then f.drift else 0.0
  }

  /** The offset `elapsed` microseconds after it was known to be `offset`. */
  function Project(offset: real, drift: real, elapsed: int): int {
    Round(offset + drift * elapsed as real)
  }

  lemma ProjectIsNearest(offset: real, drift: real, elapsed: int, dt: real)
    requires dt == elapsed as real
    ensures Project(offset, drift, elapsed) == Round(offset + drift * dt)
    ensures -0.5 <= Project(offset, drift, elapsed) as real - (offset + drift * elapsed as real) <= 0.5
  {
    var x := offset + drift * elapsed as real;
    assert x == offset + drift * dt;
    RoundIsNearest(x);
    assert Project(offset, drift, elapsed) == Round(x);
    hide Round;
  }

  function OffsetAt(f: Filter, clientTime: int): int {
    Project(if f.Empty? then 0.0 else f.offset, EffectiveDrift(f), clientTime - LastUpdate(f))
  }

  /** After any run of exact measurements of an affine offset, with the drift in use the answer is right at every time,
      to half a microsecond; without it, the answer stays at the truth of the last update. */
  lemma ExactRunAnswersRight(c: Settings, ms: seq<Measurement>, a: real, b: real, t: int)
    requires Usable(c) && c.adaptiveCutoff >= 0.0
    requires forall m :: m in ms ==> Exact(m, a, b) && m.maxError >= 0
    ensures var f := Run(Empty, c, ms);
      f.Running? ==>
        && (f.useDrift && f.count >= 2 ==> -0.5 <= OffsetAt(f, t) as real - (a + b * t as real) <= 0.5)
        && (!f.useDrift ==> -0.5 <= OffsetAt(f, t) as real - (a + b * f.lastUpdate as real) <= 0.5)
  {
    hide Run, Exact, PositiveSemidefinite, Usable, OffsetAt;
    ExactRun(Empty, c, ms, a, b);
    var f := Run(Empty, c, ms);
    if f.Running? {
      AnswerOnTruth(f, t, a, b);
    }
  }

  lemma AnswerOnTruth(f: Filter, t: int, a: real, b: real)
    requires f.Running? && Tracks(f, a, b)
    ensures f.useDrift && f.count >= 2 ==> -0.5 <= OffsetAt(f, t) as real - (a + b * t as real) <= 0.5
    ensures !f.useDrift ==> -0.5 <= OffsetAt(f, t) as real - (a + b * f.lastUpdate as real) <= 0.5
  {
    hide OffsetAt;
    AnswerIsNearest(f, t);
    var r := OffsetAt(f, t) as real;
    if !f.useDrift {
      Near(r, f.offset, a + b * f.lastUpdate as real);
    } else if f.count >= 2 {
      ExactArithmetic(f.lastUpdate, t, a, b);
      Near(r, f.offset + f.drift * (t - f.lastUpdate) as real, a + b * t as real);
    }
  }

  lemma Near(r: real, x: real, y: real)
    requires -0.5 <= r - x <= 0.5 && x == y
    ensures -0.5 <= r - y <= 0.5
  {
  }

  lemma AnswerIsNearest(f: Filter, t: int)
    requires f.Running?
    ensures f.useDrift ==> -0.5 <= OffsetAt(f, t) as real - (f.offset + f.drift * (t - f.lastUpdate) as real) <= 0.5
    ensures !f.useDrift ==> -0.5 <= OffsetAt(f, t) as real - f.offset <= 0.5
  {
    ProjectIsNearest(f.offset, EffectiveDrift(f), t - f.lastUpdate, (t - f.lastUpdate) as real);
    hide Project;
  }

  datatype Variance = Infinite | Finite(value: real)

  /** Both gains from the code's reciprocal of the innovation variance. */
  method Gains(variance: real, cross: real, innovation: real) returns (offsetGain: real, driftGain: real)
    requires innovation != 0.0
    ensures offsetGain == Gain(variance, innovation) && driftGain == Gain(cross, innovation)
  {
    hide Gain;
    var uncertainty := 1.0 / innovation;
    offsetGain := variance * uncertainty;
    driftGain := cross * uncertainty;
    ScalarGain(variance, innovation, uncertainty, offsetGain);
    ScalarGain(cross, innovation, uncertainty, driftGain);
  }

  class TimeFilter {
    var settings: Settings
    var lastUpdate: int
    var count: nat
    var offset: real
    var drift: real
    var offsetCovariance: Variance
    var offsetDriftCovariance: real
    var driftCovariance: real
    var useDrift: bool

    ghost function View(): Filter
      reads this
    {
      if count == 0 || offsetCovariance.Infinite? then Empty
      else Running(lastUpdate, count, offset, drift,
                   Covariance(offsetCovariance.value, offsetDriftCovariance, driftCovariance), useDrift)
    }

    ghost predicate Valid()
      reads this
    {
      && Usable(settings)
      && Healthy(View())
      && (count == 0 <==> offsetCovariance.Infinite?)
      && (count == 0 ==> lastUpdate == 0 && offset == 0.0 && drift == 0.0 && !useDrift)
      && (count == 0 ==> offsetDriftCovariance == 0.0 && driftCovariance == 0.0)
    }

    constructor () {
    }

    method Init(processStdDev: real, driftProcessStdDev: real, forgetFactor: real, adaptiveCutoff: real,
                minSamples: nat, driftSignificanceThreshold: real) returns (rc: int)
      requires minSamples <= 255
      modifies this
      ensures rc == 0
      ensures settings == Settings(processStdDev * processStdDev, driftProcessStdDev * driftProcessStdDev,
                                   forgetFactor * forgetFactor, adaptiveCutoff,
                                   driftSignificanceThreshold * driftSignificanceThreshold, minSamples)
      ensures Valid() <==> processStdDev != 0.0 && forgetFactor != 0.0
      ensures View() == Empty
    {
      settings := Settings(processStdDev * processStdDev, driftProcessStdDev * driftProcessStdDev,
                           forgetFactor * forgetFactor, adaptiveCutoff,
                           driftSignificanceThreshold * driftSignificanceThreshold, minSamples);
      Reset();
      SquareIsNonNegative(driftProcessStdDev);
      SquareIsPositiveUnlessZero(processStdDev, settings.processVariance);
      SquareIsPositiveUnlessZero(forgetFactor, settings.forgetVarianceFactor);
      assert Usable(settings) <==> processStdDev != 0.0 && forgetFactor != 0.0;
      return 0;
    }

    method Reset()
      modifies this
      ensures settings == old(settings) && View() == Empty && (Valid() <==> Usable(settings))
    {
      count := 0;
      offset := 0.0;
      drift := 0.0;
      offsetCovariance := Infinite;
      offsetDriftCovariance := 0.0;
      driftCovariance := 0.0;
      lastUpdate := 0;
      useDrift := false;
    }

    /** The scalar code performs one step of the matrix form. */
    method Insert(measurement: int, maxError: int, timeAdded: int)
      requires Valid()
      modifies this
      ensures Valid() && settings == old(settings)
      ensures View() == Step(old(View()), settings, Measurement(measurement, maxError, timeAdded))
    {
      ghost var f, m := View(), Measurement(measurement, maxError, timeAdded);
      if timeAdded <= lastUpdate {
        return;
      }
      var dt := (timeAdded - lastUpdate) as real;
      var dtSquared := dt * dt;
      lastUpdate := timeAdded;
      var updateStdDev := maxError as real;
      var measurementVariance := updateStdDev * updateStdDev;

      if count == 0 {
        count := count + 1;
        offset := measurement as real;
        offsetCovariance := Finite(measurementVariance);
        drift := 0.0;
        return;
      }
      if count == 1 {
        count := count + 1;
        SquareIsPositive(dt);
        drift := (measurement as real - offset) / dt;
        offset := measurement as real;
        driftCovariance := (offsetCovariance.value + measurementVariance) / dtSquared;
        offsetCovariance := Finite(measurementVariance);
        return;
      }

      Correct(measurement, maxError, dt, dtSquared, f, m);
    }

    /** Prediction, adaptive forgetting and update of an established filter. */
    method Correct(measurement: int, maxError: int, dt: real, dtSquared: real, ghost f: Filter, ghost m: Measurement)
      requires Healthy(f) && Usable(settings) && f.Running? && f.count >= 2 && m.time > f.lastUpdate
      requires View() == f.(lastUpdate := m.time) && lastUpdate == m.time && count >= 2 && offsetCovariance.Finite?
      requires m == Measurement(measurement, maxError, lastUpdate)
      requires dt == (m.time - f.lastUpdate) as real && dtSquared == dt * dt
      modifies this
      ensures settings == old(settings) && offsetCovariance.Finite? && count > 0
      ensures View() == Step(f, settings, m)
    {
      hide PositiveSemidefinite, Predict, Scale, Prior, Gain, Step, Residual, Update, Corrected;
      var newOffset, residual, newDrift, newCross, newVariance := PredictAndForget(measurement, maxError, dt, dtSquared, f, m);
      var measurementVariance := maxError as real * maxError as real;
      assert measurementVariance == MeasurementVariance(m);
      StepIsCorrected(f, settings, m);
      ghost var prior := Covariance(newVariance, newCross, newDrift);
      CorrectedByGains(f, settings, m, prior, measurementVariance, residual, dt);
      hide MeasurementVariance, CorrectedFields;
      var offsetGain, driftGain := Gains(newVariance, newCross, newVariance + measurementVariance);
      ApplyGains(newOffset, residual, newDrift, newCross, newVariance, offsetGain, driftGain, f, m, dt);
      SameCorrection(View(), Step(f, settings, m), f, settings, m, prior, dt, residual, offsetGain, driftGain);
    }

    method ApplyGains(newOffset: real, residual: real, newDrift: real, newCross: real, newVariance: real,
                      offsetGain: real, driftGain: real, ghost f: Filter, ghost m: Measurement, ghost dt: real)
      requires f.Running? && f.count > 0 && lastUpdate == m.time && drift == f.drift
      requires count == if f.count < settings.minSamples then f.count + 1 else f.count
      requires newOffset == f.offset + f.drift * dt
      modifies this
      ensures settings == old(settings) && count == old(count) && offsetCovariance.Finite?
      ensures CorrectedFields(View(), f, settings, m, Covariance(newVariance, newCross, newDrift), dt, residual,
                              offsetGain, driftGain)
    {
      offset := newOffset + offsetGain * residual;
      drift := drift + driftGain * residual;
      driftCovariance := newDrift - driftGain * newCross;
      offsetDriftCovariance := newCross - driftGain * newVariance;
      offsetCovariance := Finite(newVariance - offsetGain * newVariance);
      var driftSquared := drift * drift;
      useDrift := driftSquared > settings.significanceSquared * driftCovariance;
    }

    method PredictAndForget(measurement: int, maxError: int, dt: real, dtSquared: real, ghost f: Filter,
                            ghost m: Measurement)
      returns (newOffset: real, residual: real, newDrift: real, newCross: real, newVariance: real)
      requires f.Running? && f.count >= 2 && m.time > f.lastUpdate
      requires View() == f.(lastUpdate := m.time) && count >= 2 && offsetCovariance.Finite?
      requires m == Measurement(measurement, maxError, lastUpdate)
      requires dt == (m.time - f.lastUpdate) as real && dtSquared == dt * dt
      modifies this`count
      ensures count == if f.count < settings.minSamples then f.count + 1 else f.count
      ensures newOffset == f.offset + f.drift * dt && residual == Residual(f, m)
      ensures Covariance(newVariance, newCross, newDrift) == Prior(f, settings, m)
    {
      hide Predict, Scale, Prior, Abs;
      newOffset, newDrift, newCross, newVariance := PredictAhead(dt, dtSquared, f);
      residual := measurement as real - newOffset;
      var cutoff := maxError as real * settings.adaptiveCutoff;
      PriorByScalars(f, settings, m, Covariance(newVariance, newCross, newDrift), residual, cutoff);
      newDrift, newCross, newVariance := CountOrForget(residual, cutoff, newDrift, newCross, newVariance);
    }

    method PredictAhead(dt: real, dtSquared: real, ghost f: Filter)
      returns (newOffset: real, newDrift: real, newCross: real, newVariance: real)
      requires f.Running? && offset == f.offset && drift == f.drift && offsetCovariance == Finite(f.p.oo)
      requires offsetDriftCovariance == f.p.od && driftCovariance == f.p.dd && dtSquared == dt * dt
      ensures newOffset == f.offset + f.drift * dt
      ensures Covariance(newVariance, newCross, newDrift)
           == Predict(f.p, dt, settings.processVariance, settings.driftProcessVariance)
    {
      hide Predict;
      newOffset := offset + drift * dt;
      newDrift := driftCovariance + dt * settings.driftProcessVariance;
      newCross := offsetDriftCovariance + driftCovariance * dt;
      newVariance := offsetCovariance.value + 2.0 * offsetDriftCovariance * dt + driftCovariance * dtSquared
                     + dt * settings.processVariance;
      ScalarPrediction(f.p, dt, dtSquared, settings.processVariance, settings.driftProcessVariance);
    }

    /** Counts the sample, or else forgets if the residual is beyond the cutoff. */
    method CountOrForget(residual: real, cutoff: real, drift1: real, cross1: real, variance1: real)
      returns (newDrift: real, newCross: real, newVariance: real)
      modifies this`count
      ensures count == if old(count) < settings.minSamples then old(count) + 1 else old(count)
      ensures Covariance(newVariance, newCross, newDrift)
           == if old(count) >= settings.minSamples && Abs(residual) > cutoff
              then Scale(Covariance(variance1, cross1, drift1), settings.forgetVarianceFactor)
              else Covariance(variance1, cross1, drift1)
    {
      hide Scale, Abs;
      newDrift, newCross, newVariance := drift1, cross1, variance1;
      if count < settings.minSamples {
        count := count + 1;
      } else if Abs(residual) > cutoff {
        newDrift := newDrift * settings.forgetVarianceFactor;
        newCross := newCross * settings.forgetVarianceFactor;
        newVariance := newVariance * settings.forgetVarianceFactor;
        ScalarForgetting(Covariance(variance1, cross1, drift1), settings.forgetVarianceFactor);
      }
    }

    method GetOffset(clientTime: int) returns (r: int)
      requires Valid()
      ensures r == OffsetAt(View(), clientTime)
      ensures -0.5 <= r as real - (offset + (if useDrift then drift else 0.0) * (clientTime - lastUpdate) as real) <= 0.5
    {
      var dt := (clientTime - lastUpdate) as real;
      var effectiveDrift := if useDrift then drift else 0.0;
      hide Round, Project;
      r := Round(offset + effectiveDrift * dt);
      ProjectIsNearest(offset, effectiveDrift, clientTime - lastUpdate, dt);
    }

    /** After any run from an empty filter: full exactly if n measurements have been accepted and can be counted. */
    method IsFull(n: nat) returns (full: int)
      requires Valid()
      ensures full == 1 || full == 0
      ensures forall ms :: View() == Run(Empty, settings, ms) ==>
                (full == 1 <==> n <= Accepted(0, ms) && n <= CountLimit(settings))
    {
      forall ms | View() == Run(Empty, settings, ms)
        ensures count >= n <==> n <= Accepted(0, ms) && n <= CountLimit(settings)
      {
        FullFromTheNthSample(settings, ms, n);
      }
      full := if count >= n then 1 else 0;
    }
  }

  lemma ScalarPrediction(p: Covariance, dt: real, dt2: real, q: real, qd: real)
    requires dt2 == dt * dt
    ensures Predict(p, dt, q, qd)
         == Covariance(p.oo + 2.0 * p.od * dt + p.dd * dt2 + dt * q, p.od + p.dd * dt, p.dd + dt * qd)
  {
  }

  /** The prior by the code's own residual and cutoff. */
  lemma PriorByScalars(f: Filter, c: Settings, m: Measurement, p: Covariance, residual: real, cutoff: real)
    requires f.Running?
    requires p == Predict(f.p, (m.time - f.lastUpdate) as real, c.processVariance, c.driftProcessVariance)
    requires residual == Residual(f, m) && cutoff == m.maxError as real * c.adaptiveCutoff
    ensures Prior(f, c, m)
         == if f.count >= c.minSamples && Abs(residual) > cutoff then Scale(p, c.forgetVarianceFactor) else p
  {
    hide Predict, Scale, Residual, Abs;
  }

  lemma StepIsCorrected(f: Filter, c: Settings, m: Measurement)
    requires Healthy(f) && Usable(c) && f.Running? && f.count >= 2 && m.time > f.lastUpdate
    ensures Prior(f, c, m).oo + MeasurementVariance(m) > 0.0
    ensures Step(f, c, m) == Corrected(f, c, m, Prior(f, c, m), MeasurementVariance(m), Residual(f, m))
  {
    UpdateStepIsSound(f, c, m);
  }

  /** A correction, field by field. */
  ghost predicate CorrectedFields(g: Filter, f: Filter, c: Settings, m: Measurement, prior: Covariance, dt: real, y: real,
                                  ko: real, kd: real)
    requires f.Running?
  {
    && g.Running? && g.lastUpdate == m.time
    && g.count == (if f.count < c.minSamples then f.count + 1 else f.count)
    && g.offset == f.offset + f.drift * dt + ko * y
    && g.drift == f.drift + kd * y
    && g.p.oo == prior.oo - ko * prior.oo
    && g.p.od == prior.od - kd * prior.oo
    && g.p.dd == prior.dd - kd * prior.od
    && g.useDrift == (g.drift * g.drift > c.significanceSquared * g.p.dd)
  }

  lemma CorrectedByGains(f: Filter, c: Settings, m: Measurement, prior: Covariance, r: real, y: real, dt: real)
    requires f.Running? && prior.oo + r != 0.0 && dt == (m.time - f.lastUpdate) as real
    ensures CorrectedFields(Corrected(f, c, m, prior, r, y), f, c, m, prior, dt, y,
                            Gain(prior.oo, prior.oo + r), Gain(prior.od, prior.oo + r))
  {
    hide Gain;
  }

  lemma SameCorrection(g: Filter, h: Filter, f: Filter, c: Settings, m: Measurement, prior: Covariance, dt: real,
                       y: real, ko: real, kd: real)
    requires f.Running?
    requires CorrectedFields(g, f, c, m, prior, dt, y, ko, kd) && CorrectedFields(h, f, c, m, prior, dt, y, ko, kd)
    ensures g == h
  {
  }

  lemma ScalarGain(x: real, s: real, u: real, g: real)
    requires s != 0.0 && u == 1.0 / s && g == x * u
    ensures g == Gain(x, s)
  {
    assert u * s == 1.0;
    assert g * s == x * (u * s);
    SameFactor(g, x / s, s);
  }

  lemma ScalarForgetting(p: Covariance, f: real)
    ensures Scale(p, f) == Covariance(p.oo * f, p.od * f, p.dd * f)
  {
  }
}
