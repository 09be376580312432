/** Barrier outcomes (label_paths.py, execution_policy.py, features.py): which of a target and a stop
    a price path touches first. The evaluator works on whole columns with masks; its reference is a
    scan of one path, bar by bar. Prices are reals; None stands for a value that is not finite. */
module BarrierPaths {
  import opened Prelude

  datatype Bar = Bar(open: real, high: real, low: real, close: real)

  datatype Outcome = TargetFirst | StopFirst | Timeout

  datatype Policy = Policy(targetAtr: real, stopAtr: real, costBps: real)

  // ----- fills -----

  /** The fill of one trade: a stop fills no better than the open of its bar, a target at the target. */
  function FillPrice(outcome: Outcome, target: real, stop: real, triggerOpen: real, final: real): real {
    match outcome
    case StopFirst => RealMin(triggerOpen, stop)
    case TargetFirst => target
    case Timeout => final
  }

  /** Masked assignment, in place. */
  method SetWhere<T>(a: array<T>, mask: seq<bool>, values: seq<T>)
    requires |mask| == |values| == a.Length
    modifies a
    ensures forall i :: 0 <= i < a.Length ==> a[i] == if mask[i] then values[i] else old(a[i])
  {
    for i := 0 to a.Length
      invariant forall k :: 0 <= k < i ==> a[k] == if mask[k] then values[k] else old(a[k])
      invariant forall k :: i <= k < a.Length ==> a[k] == old(a[k])
    {
      if mask[i] {
        a[i] := values[i];
      }
    }
  }

  /** The fills of a column of trades; each is the fill of that trade alone. */
  method ExecutableFillPrices(outcome: seq<Outcome>, target: seq<real>, stop: seq<real>, triggerOpen: seq<real>, final: seq<real>)
    returns (fills: seq<real>)
    requires |outcome| == |target| == |stop| == |triggerOpen| == |final|
    ensures |fills| == |outcome|
    ensures forall i :: 0 <= i < |fills| ==> fills[i] == FillPrice(outcome[i], target[i], stop[i], triggerOpen[i], final[i])
  {
    var n := |outcome|;
    var fill := new real[n](i requires 0 <= i < n => final[i]);
    var isStop := seq(n, i requires 0 <= i < n => outcome[i] == StopFirst);
    var isTarget := seq(n, i requires 0 <= i < n => outcome[i] == TargetFirst);
    SetWhere(fill, isStop, seq(n, i requires 0 <= i < n => RealMin(triggerOpen[i], stop[i])));
    SetWhere(fill, isTarget, target);
    return fill[..];
  }

  // ----- the scan of one path -----

  predicate Touched(bar: Bar, target: real, stop: real) {
    bar.high >= target || bar.low <= stop
  }

  datatype Touch = Touch(outcome: Outcome, offset: nat)

  /** Bar by bar from `i`; a bar that touches both counts as a stop. */
  function Scan(bars: seq<Bar>, target: real, stop: real, i: nat): Touch
    requires i <= |bars| && bars != []
    decreases |bars| - i
  {
    if i == |bars| then Touch(Timeout, |bars| - 1)
    else if bars[i].low <= stop then Touch(StopFirst, i)
    else if bars[i].high >= target then Touch(TargetFirst, i)
    else Scan(bars, target, stop, i + 1)
  }

  /** The highest high and the lowest low of the bars up to `offset`. */
  function Highest(bars: seq<Bar>, offset: nat): (r: real)
    requires offset < |bars|
    ensures forall k :: 0 <= k <= offset ==> bars[k].high <= r
    ensures exists k :: 0 <= k <= offset && bars[k].high == r
  {
    if offset == 0 then bars[0].high else RealMax(Highest(bars, offset - 1), bars[offset].high)
  }

  function Lowest(bars: seq<Bar>, offset: nat): (r: real)
    requires offset < |bars|
    ensures forall k :: 0 <= k <= offset ==> r <= bars[k].low
    ensures exists k :: 0 <= k <= offset && bars[k].low == r
  {
    if offset == 0 then bars[0].low else RealMin(Lowest(bars, offset - 1), bars[offset].low)
  }

  datatype PathResult = PathResult(outcome: Outcome, offset: nat, targetFirst: bool, stopFirst: bool, timeout: bool,
                                   target: real, stop: real, realized: real, gross: real, net: real, mfe: real, mae: real)

  /** The barriers: so many ATRs above and below the entry. */
  function Above(entry: real, multiple: real, atr: real): real { entry + multiple * atr }

  function Below(entry: real, multiple: real, atr: real): real { entry - multiple * atr }

  function TargetPrice(entry: real, atr: real, policy: Policy): real { Above(entry, policy.targetAtr, atr) }

  function StopPrice(entry: real, atr: real, policy: Policy): real { Below(entry, policy.stopAtr, atr) }

  /** What the scan says about one path. */
  function ScanPath(bars: seq<Bar>, atr: real, policy: Policy): PathResult
    requires bars != [] && bars[0].open > 0.0
  {
    var entry := bars[0].open;
    var (target, stop) := (TargetPrice(entry, atr, policy), StopPrice(entry, atr, policy));
    var touch := Scan(bars, target, stop, 0);
    ScanBound(bars, target, stop, 0);
    var realized := FillPrice(touch.outcome, target, stop, bars[touch.offset].open, bars[|bars| - 1].close);
    PathResult(touch.outcome, touch.offset, touch.outcome == TargetFirst, touch.outcome == StopFirst, touch.outcome == Timeout,
               target, stop, realized, realized / entry - 1.0, realized / entry - 1.0 - policy.costBps / 10000.0,
               Highest(bars, touch.offset) / entry - 1.0, Lowest(bars, touch.offset) / entry - 1.0)
  }

  lemma {:induction false} ScanBound(bars: seq<Bar>, target: real, stop: real, i: nat)
    requires i <= |bars| && bars != []
    ensures Scan(bars, target, stop, i).offset < |bars|
    decreases |bars| - i
  {
    if i < |bars| {
      ScanBound(bars, target, stop, i + 1);
    }
  }

  // ----- the evaluator on whole columns -----

  datatype Matrix = Matrix(width: nat, rows: seq<seq<Option<real>>>)

  predicate IsMatrix(m: Matrix) {
    forall i :: 0 <= i < |m.rows| ==> |m.rows[i]| == m.width
  }

  predicate SameShape(a: Matrix, b: Matrix) {
    a.width == b.width && |a.rows| == |b.rows|
  }

  predicate Finite(row: seq<Option<real>>) {
    forall j :: 0 <= j < |row| ==> row[j].Some?
  }

  datatype Paths = Paths(opens: Matrix, highs: Matrix, lows: Matrix, closes: Matrix, atr: seq<Option<real>>)

  predicate AreMatrices(p: Paths) {
    IsMatrix(p.opens) && IsMatrix(p.highs) && IsMatrix(p.lows) && IsMatrix(p.closes)
  }

  predicate Shaped(p: Paths) {
    && AreMatrices(p)
    && SameShape(p.highs, p.opens) && SameShape(p.lows, p.opens) && SameShape(p.closes, p.opens)
    && |p.atr| == |p.opens.rows| && p.opens.width >= 1
  }

  predicate ValidRow(p: Paths, i: nat)
    requires Shaped(p) && i < |p.atr|
  {
    && Finite(p.opens.rows[i]) && Finite(p.highs.rows[i]) && Finite(p.lows.rows[i]) && Finite(p.closes.rows[i])
    && p.opens.rows[i][0].value > 0.0
    && p.atr[i].Some? && p.atr[i].value > 0.0
  }

  function BarsOf(p: Paths, i: nat): (bars: seq<Bar>)
    requires Shaped(p) && i < |p.atr| && ValidRow(p, i)
    ensures |bars| == p.opens.width && bars[0].open == p.opens.rows[i][0].value
  {
    seq(p.opens.width, j requires 0 <= j < p.opens.width =>
      Bar(p.opens.rows[i][j].value, p.highs.rows[i][j].value, p.lows.rows[i][j].value, p.closes.rows[i][j].value))
  }

  predicate AllValid(p: Paths)
    requires Shaped(p)
  {
    forall i :: 0 <= i < |p.atr| ==> ValidRow(p, i)
  }

  /** The paths the evaluator takes; it refuses all others. */
  predicate Accepted(p: Paths, policy: Policy)
    requires AreMatrices(p)
  {
    && Shaped(p) && AllValid(p)
    && forall i :: 0 <= i < |p.atr| ==> StopPrice(BarsOf(p, i)[0].open, p.atr[i].value, policy) > 0.0
  }

  function HitTarget(bars: seq<Bar>, target: real): (hits: seq<bool>) {
    seq(|bars|, j requires 0 <= j < |bars| => bars[j].high >= target)
  }

  function HitStop(bars: seq<Bar>, stop: real): (hits: seq<bool>) {
    seq(|bars|, j requires 0 <= j < |bars| => bars[j].low <= stop)
  }

  /** The position of the first largest element of a boolean row. */
  function ArgMax(hits: seq<bool>): (r: nat)
    requires hits != []
    ensures r < |hits|
    ensures true in hits ==> hits[r] && forall j :: 0 <= j < r ==> !hits[j]
  {
    if hits[0] || |hits| == 1 || true !in hits[1..] then 0 else 1 + ArgMax(hits[1..])
  }

  function FirstHit(hits: seq<bool>, missing: nat): nat
    requires hits != []
  {
    if true in hits then ArgMax(hits) else missing
  }

  /** Maximum over the active elements; None is minus infinity. */
  function MaskedMax(values: seq<real>, active: seq<bool>): Option<real>
    requires |values| == |active|
  {
    if values == [] then None
    else
      var n := |values| - 1;
      var before := MaskedMax(values[..n], active[..n]);
      if !active[n] then before
      else if before.None? then Some(values[n])
      else Some(RealMax(before.value, values[n]))
  }

  function MaskedMin(values: seq<real>, active: seq<bool>): Option<real>
    requires |values| == |active|
  {
    if values == [] then None
    else
      var n := |values| - 1;
      var before := MaskedMin(values[..n], active[..n]);
      if !active[n] then before
      else if before.None? then Some(values[n])
      else Some(RealMin(before.value, values[n]))
  }

  function Active(width: nat, offset: nat): seq<bool> {
    seq(width, j => j <= offset)
  }

  function Highs(bars: seq<Bar>): seq<real> { seq(|bars|, j requires 0 <= j < |bars| => bars[j].high) }

  function Lows(bars: seq<Bar>): seq<real> { seq(|bars|, j requires 0 <= j < |bars| => bars[j].low) }

  lemma {:induction false} MaskedMaxIsHighest(bars: seq<Bar>, offset: nat, n: nat)
    requires offset < |bars| && n <= |bars|
    ensures MaskedMax(Highs(bars)[..n], Active(|bars|, offset)[..n]) ==
            if n == 0 then None else Some(Highest(bars, if offset < n then offset else n - 1))
  {
    if n > 0 {
      MaskedMaxIsHighest(bars, offset, n - 1);
      assert Highs(bars)[..n][..n - 1] == Highs(bars)[..n - 1];
      assert Active(|bars|, offset)[..n][..n - 1] == Active(|bars|, offset)[..n - 1];
    }
  }

  lemma {:induction false} MaskedMinIsLowest(bars: seq<Bar>, offset: nat, n: nat)
    requires offset < |bars| && n <= |bars|
    ensures MaskedMin(Lows(bars)[..n], Active(|bars|, offset)[..n]) ==
            if n == 0 then None else Some(Lowest(bars, if offset < n then offset else n - 1))
  {
    if n > 0 {
      MaskedMinIsLowest(bars, offset, n - 1);
      assert Lows(bars)[..n][..n - 1] == Lows(bars)[..n - 1];
      assert Active(|bars|, offset)[..n][..n - 1] == Active(|bars|, offset)[..n - 1];
    }
  }

  /** The scan stops at the first touched bar and says what that bar touched. */
  lemma {:induction false} ScanStopsAt(bars: seq<Bar>, target: real, stop: real, i: nat, k: nat)
    requires i <= k <= |bars| && bars != []
    requires forall j :: i <= j < k ==> !Touched(bars[j], target, stop)
    requires k < |bars| ==> Touched(bars[k], target, stop)
    ensures Scan(bars, target, stop, i) ==
            if k == |bars| then Touch(Timeout, |bars| - 1)
            else Touch(if bars[k].low <= stop then StopFirst else TargetFirst, k)
    decreases k - i
  {
    if i < k {
      assert !Touched(bars[i], target, stop);
      ScanStopsAt(bars, target, stop, i + 1, k);
    }
  }

  function Earlier(a: nat, b: nat): nat { if a <= b then a else b }

  /** The mask arithmetic of one row gives the outcome and offset of the scan. */
  lemma MasksAreScan(bars: seq<Bar>, target: real, stop: real)
    requires bars != []
    ensures
      var missing := |bars| + 1;
      var (firstTarget, firstStop) := (FirstHit(HitTarget(bars, target), missing), FirstHit(HitStop(bars, stop), missing));
      var touch := Scan(bars, target, stop, 0);
      && (firstTarget < firstStop <==> touch.outcome == TargetFirst)
      && (firstStop <= firstTarget && firstStop < missing <==> touch.outcome == StopFirst)
      && Earlier(Earlier(firstTarget, firstStop), |bars| - 1) == touch.offset
  {
    var missing := |bars| + 1;
    var (targets, stops) := (HitTarget(bars, target), HitStop(bars, stop));
    var k := Earlier(Earlier(FirstHit(targets, missing), FirstHit(stops, missing)), |bars|);
    forall j | 0 <= j < k ensures !Touched(bars[j], target, stop) {
      assert targets[j] == (bars[j].high >= target) && stops[j] == (bars[j].low <= stop);
    }
    if k < |bars| {
      assert targets[k] == (bars[k].high >= target) && stops[k] == (bars[k].low <= stop);
    }
    ScanStopsAt(bars, target, stop, 0, k);
  }

  // ----- the batch -----

  datatype Batch = Batch(outcome: seq<Outcome>, offset: seq<nat>, targetFirst: seq<bool>, stopFirst: seq<bool>,
                         timeout: seq<bool>, target: seq<real>, stop: seq<real>, realized: seq<real>,
                         gross: seq<real>, net: seq<real>, mfe: seq<real>, mae: seq<real>)

  predicate HasRows(b: Batch, n: nat) {
    && |b.outcome| == |b.offset| == |b.targetFirst| == |b.stopFirst| == |b.timeout| == |b.target| == n
    && |b.stop| == |b.realized| == |b.gross| == |b.net| == |b.mfe| == |b.mae| == n
  }

  function Row(b: Batch, n: nat, i: nat): PathResult
    requires HasRows(b, n) && i < n
  {
    PathResult(b.outcome[i], b.offset[i], b.targetFirst[i], b.stopFirst[i], b.timeout[i], b.target[i], b.stop[i],
               b.realized[i], b.gross[i], b.net[i], b.mfe[i], b.mae[i])
  }

  /** Paths of one width with a positive entry, and the two barrier columns. */
  predicate AreColumns(paths: seq<seq<Bar>>, width: nat, target: seq<real>, stop: seq<real>) {
    && width >= 1 && |target| == |stop| == |paths|
    && forall i :: 0 <= i < |paths| ==> |paths[i]| == width && paths[i][0].open > 0.0
  }

  /** The outcome and offset columns: masks over all rows at once. */
  method EvaluateTouches(paths: seq<seq<Bar>>, width: nat, target: seq<real>, stop: seq<real>)
    returns (outcome: seq<Outcome>, offset: seq<nat>, targetFirst: seq<bool>, stopFirst: seq<bool>, timeout: seq<bool>)
    requires AreColumns(paths, width, target, stop)
    ensures |outcome| == |offset| == |targetFirst| == |stopFirst| == |timeout| == |paths|
    ensures forall i :: 0 <= i < |paths| ==> offset[i] < width
    ensures forall i :: 0 <= i < |paths| ==> Scan(paths[i], target[i], stop[i], 0) == Touch(outcome[i], offset[i])
    ensures forall i :: 0 <= i < |paths| ==>
      targetFirst[i] == (outcome[i] == TargetFirst) && stopFirst[i] == (outcome[i] == StopFirst) && timeout[i] == (outcome[i] == Timeout)
  {
    hide Scan, FirstHit, HitTarget, HitStop;
    var n := |paths|;
    var missing := width + 1;
    forall i | 0 <= i < n ensures HitTarget(paths[i], target[i]) != [] && HitStop(paths[i], stop[i]) != [] {
      HitsOfPath(paths[i], target[i], stop[i]);
    }
    var firstTarget := seq(n, i requires 0 <= i < n => FirstHit(HitTarget(paths[i], target[i]), missing));
    var firstStop := seq(n, i requires 0 <= i < n => FirstHit(HitStop(paths[i], stop[i]), missing));
    targetFirst := seq(n, i requires 0 <= i < n => firstTarget[i] < firstStop[i]);
    stopFirst := seq(n, i requires 0 <= i < n => firstStop[i] <= firstTarget[i] && firstStop[i] < missing);
    timeout := seq(n, i requires 0 <= i < n => !(targetFirst[i] || stopFirst[i]));
    offset := seq(n, i requires 0 <= i < n => Earlier(Earlier(firstTarget[i], firstStop[i]), width - 1));
    var outcomes := new Outcome[n](_ => Timeout);
    SetWhere(outcomes, targetFirst, seq(n, _ => TargetFirst));
    SetWhere(outcomes, stopFirst, seq(n, _ => StopFirst));
    outcome := outcomes[..];
    forall i | 0 <= i < n ensures Scan(paths[i], target[i], stop[i], 0) == Touch(outcome[i], offset[i]) {
      MasksAreScan(paths[i], target[i], stop[i]);
    }
  }

  lemma HitsOfPath(bars: seq<Bar>, target: real, stop: real)
    requires bars != []
    ensures HitTarget(bars, target) != [] && HitStop(bars, stop) != []
  {}

  /** All columns of accepted paths. */
  method EvaluateColumns(paths: seq<seq<Bar>>, width: nat, atr: seq<real>, target: seq<real>, stop: seq<real>, policy: Policy)
    returns (b: Batch)
    requires AreColumns(paths, width, target, stop) && |atr| == |paths|
    requires forall i :: 0 <= i < |paths| ==>
      target[i] == TargetPrice(paths[i][0].open, atr[i], policy) && stop[i] == StopPrice(paths[i][0].open, atr[i], policy)
    ensures HasRows(b, |paths|)
    ensures forall i :: 0 <= i < |paths| ==> Row(b, |paths|, i) == ScanPath(paths[i], atr[i], policy)
  {
    hide Scan, MaskedMax, MaskedMin, Highest, Lowest, Highs, Lows, Active, TargetPrice, StopPrice, FillPrice;
    var n := |paths|;
    var outcome, offset, targetFirst, stopFirst, timeout := EvaluateTouches(paths, width, target, stop);
    var realized := ExecutableFillPrices(outcome, target, stop,
                                         seq(n, i requires 0 <= i < n => paths[i][offset[i]].open),
                                         seq(n, i requires 0 <= i < n => paths[i][width - 1].close));
    forall i | 0 <= i < n
      ensures |Highs(paths[i])| == |Lows(paths[i])| == |Active(width, offset[i])| == width
      ensures MaskedMax(Highs(paths[i]), Active(width, offset[i])) == Some(Highest(paths[i], offset[i]))
      ensures MaskedMin(Lows(paths[i]), Active(width, offset[i])) == Some(Lowest(paths[i], offset[i]))
    {
      MasksAreExtremes(paths[i], offset[i]);
    }
    var gross := seq(n, i requires 0 <= i < n => realized[i] / paths[i][0].open - 1.0);
    var net := seq(n, i requires 0 <= i < n => gross[i] - policy.costBps / 10000.0);
    var mfe := seq(n, i requires 0 <= i < n => MaskedMax(Highs(paths[i]), Active(width, offset[i])).value / paths[i][0].open - 1.0);
    var mae := seq(n, i requires 0 <= i < n => MaskedMin(Lows(paths[i]), Active(width, offset[i])).value / paths[i][0].open - 1.0);
    b := Batch(outcome, offset, targetFirst, stopFirst, timeout, target, stop, realized, gross, net, mfe, mae);
  }

  lemma MasksAreExtremes(bars: seq<Bar>, offset: nat)
    requires offset < |bars|
    ensures |Highs(bars)| == |Lows(bars)| == |Active(|bars|, offset)| == |bars|
    ensures MaskedMax(Highs(bars), Active(|bars|, offset)) == Some(Highest(bars, offset))
    ensures MaskedMin(Lows(bars), Active(|bars|, offset)) == Some(Lowest(bars, offset))
  {
    MaskedMaxIsHighest(bars, offset, |bars|);
    MaskedMinIsLowest(bars, offset, |bars|);
    assert Highs(bars)[..|bars|] == Highs(bars) && Lows(bars)[..|bars|] == Lows(bars);
    assert Active(|bars|, offset)[..|bars|] == Active(|bars|, offset);
  }

  /** The evaluator: it refuses exactly the inputs that are not accepted, and row by row its columns
      are what the scan of that path alone says. */
  method EvaluateIntradayBarrierPaths(p: Paths, policy: Policy) returns (r: Result<Batch>)
    requires AreMatrices(p)
    ensures r.Success? <==> Accepted(p, policy)
    ensures r.Success? ==>
      && HasRows(r.value, |p.atr|)
      && forall i :: 0 <= i < |p.atr| ==> Row(r.value, |p.atr|, i) == ScanPath(BarsOf(p, i), p.atr[i].value, policy)
  {
    if !(SameShape(p.highs, p.opens) && SameShape(p.lows, p.opens) && SameShape(p.closes, p.opens)) {
      return Failure("matrices must have equal shape");
    }
    if |p.atr| != |p.opens.rows| {
      return Failure("ATR vector does not match path rows");
    }
    if p.opens.width < 1 {
      return Failure("path must contain at least one bar");
    }
    if !AllValid(p) {
      return Failure("invalid price or ATR evidence");
    }
    hide ScanPath, StopPrice, TargetPrice;
    var n := |p.atr|;
    var paths: seq<seq<Bar>> := seq(n, i requires 0 <= i < n => BarsOf(p, i));
    forall i | 0 <= i < n ensures p.atr[i].Some? && |paths[i]| == p.opens.width && paths[i][0].open > 0.0 {
      assert ValidRow(p, i);
    }
    var atr := seq(n, i requires 0 <= i < n => p.atr[i].value);
    var target := seq(n, i requires 0 <= i < n => TargetPrice(paths[i][0].open, atr[i], policy));
    var stop := seq(n, i requires 0 <= i < n => StopPrice(paths[i][0].open, atr[i], policy));
    if exists i :: 0 <= i < n && stop[i] <= 0.0 {
      return Failure("stop price must remain positive");
    }
    assert forall i :: 0 <= i < n ==> stop[i] > 0.0 && stop[i] == StopPrice(BarsOf(p, i)[0].open, p.atr[i].value, policy);
    var b := EvaluateColumns(paths, p.opens.width, atr, target, stop, policy);
    return Success(b);
  }

  // ----- what the outcomes mean -----

  lemma {:induction false} FirstTouched(bars: seq<Bar>, target: real, stop: real) returns (k: nat)
    ensures k <= |bars|
    ensures forall j :: 0 <= j < k ==> !Touched(bars[j], target, stop)
    ensures k < |bars| ==> Touched(bars[k], target, stop)
  {
    k := 0;
    while k < |bars| && !Touched(bars[k], target, stop)
      invariant k <= |bars|
      invariant forall j :: 0 <= j < k ==> !Touched(bars[j], target, stop)
    {
      k := k + 1;
    }
  }

  /** The three flags partition the paths: timeout exactly when no bar is touched, and then the offset
      is the last bar; otherwise the offset is the first touched bar, a stop exactly when that bar
      touches the stop and a target exactly when it touches the target alone. */
  lemma OutcomeIsTheFirstTouch(bars: seq<Bar>, atr: real, policy: Policy)
    requires bars != [] && bars[0].open > 0.0
    ensures
      var r := ScanPath(bars, atr, policy);
      && r.offset < |bars|
      && (r.timeout <==> forall k :: 0 <= k < |bars| ==> !Touched(bars[k], r.target, r.stop))
      && (r.timeout ==> r.offset == |bars| - 1)
      && (forall k :: 0 <= k < r.offset ==> !Touched(bars[k], r.target, r.stop))
      && (r.stopFirst <==> bars[r.offset].low <= r.stop)
      && (r.targetFirst <==> bars[r.offset].high >= r.target && bars[r.offset].low > r.stop)
  {
    var (target, stop) := (TargetPrice(bars[0].open, atr, policy), StopPrice(bars[0].open, atr, policy));
    var k := FirstTouched(bars, target, stop);
    ScanStopsAt(bars, target, stop, 0, k);
  }

  /** How the columns of one result hang together. */
  lemma ResultIs(bars: seq<Bar>, atr: real, policy: Policy)
    requires bars != [] && bars[0].open > 0.0
    ensures
      var r := ScanPath(bars, atr, policy);
      var entry := bars[0].open;
      && r.offset < |bars|
      && r.target == TargetPrice(entry, atr, policy) && r.stop == StopPrice(entry, atr, policy)
      && r.realized == FillPrice(r.outcome, r.target, r.stop, bars[r.offset].open, bars[|bars| - 1].close)
      && r.gross == r.realized / entry - 1.0 && r.net == r.gross - policy.costBps / 10000.0
      && r.mfe == Highest(bars, r.offset) / entry - 1.0 && r.mae == Lowest(bars, r.offset) / entry - 1.0
      && r.stopFirst == (r.outcome == StopFirst) && r.targetFirst == (r.outcome == TargetFirst) && r.timeout == (r.outcome == Timeout)
  {
    hide Scan, FillPrice, TargetPrice, StopPrice, Highest, Lowest;
    ScanBound(bars, TargetPrice(bars[0].open, atr, policy), StopPrice(bars[0].open, atr, policy), 0);
  }

  /** The prices: the barriers lie so many ATRs from the entry; a stop fills at the barrier or the open of
      its bar, whichever is lower, a target at the barrier, and a timeout at the last close. */
  lemma PricesAre(bars: seq<Bar>, atr: real, policy: Policy)
    requires bars != [] && bars[0].open > 0.0
    ensures
      var r := ScanPath(bars, atr, policy);
      && r.offset < |bars|
      && r.target == bars[0].open + policy.targetAtr * atr && r.stop == bars[0].open - policy.stopAtr * atr
      && (r.stopFirst ==> r.realized <= r.stop && r.realized <= bars[r.offset].open)
      && (r.stopFirst ==> r.realized == r.stop || r.realized == bars[r.offset].open)
      && (r.targetFirst ==> r.realized == r.target)
      && (r.timeout ==> r.realized == bars[|bars| - 1].close)
  {
    hide ScanPath, Scan;
    ResultIs(bars, atr, policy);
  }

  /** The returns are relative to the entry, net of costs in basis points. */
  lemma ReturnsAre(bars: seq<Bar>, atr: real, policy: Policy)
    requires bars != [] && bars[0].open > 0.0
    ensures
      var r := ScanPath(bars, atr, policy);
      && (r.gross + 1.0) * bars[0].open == r.realized
      && (r.gross - r.net) * 10000.0 == policy.costBps
  {
    hide ScanPath, Scan, FillPrice, TargetPrice, StopPrice, Highest, Lowest;
    ResultIs(bars, atr, policy);
    TimesBack(ScanPath(bars, atr, policy).realized, bars[0].open);
  }

  ghost predicate IsHighest(bars: seq<Bar>, offset: nat, x: real)
    requires offset < |bars|
  {
    (forall k :: 0 <= k <= offset ==> bars[k].high <= x) && exists k :: 0 <= k <= offset && bars[k].high == x
  }

  ghost predicate IsLowest(bars: seq<Bar>, offset: nat, x: real)
    requires offset < |bars|
  {
    (forall k :: 0 <= k <= offset ==> x <= bars[k].low) && exists k :: 0 <= k <= offset && bars[k].low == x
  }

  lemma ExtremesAre(bars: seq<Bar>, offset: nat)
    requires offset < |bars|
    ensures IsHighest(bars, offset, Highest(bars, offset)) && IsLowest(bars, offset, Lowest(bars, offset))
  {}

  /** The price a return stands for. */
  function PriceOf(change: real, entry: real): real { (change + 1.0) * entry }

  lemma PriceBack(x: real, entry: real)
    requires entry > 0.0
    ensures PriceOf(x / entry - 1.0, entry) == x
  {
    TimesBack(x, entry);
  }

  /** The excursions stand for the highest high and the lowest low up to the offset. */
  lemma ExcursionsAre(bars: seq<Bar>, atr: real, policy: Policy)
    requires bars != [] && bars[0].open > 0.0
    ensures
      var r := ScanPath(bars, atr, policy);
      && r.offset < |bars|
      && IsHighest(bars, r.offset, PriceOf(r.mfe, bars[0].open))
      && IsLowest(bars, r.offset, PriceOf(r.mae, bars[0].open))
  {
    hide ScanPath, Scan, FillPrice, TargetPrice, StopPrice, IsHighest, IsLowest, Highest, Lowest, PriceOf;
    ResultIs(bars, atr, policy);
    var r := ScanPath(bars, atr, policy);
    PriceBack(Highest(bars, r.offset), bars[0].open);
    PriceBack(Lowest(bars, r.offset), bars[0].open);
    ExtremesAre(bars, r.offset);
  }

  lemma TimesBack(x: real, entry: real)
    requires entry > 0.0
    ensures (x / entry - 1.0 + 1.0) * entry == x
  {}

  /** The scalar fill, in the source's words: no better than the open of a bar that gaps through. */
  lemma FillExactly(outcome: Outcome, target: real, stop: real, triggerOpen: real, final: real)
    ensures
      var fill := FillPrice(outcome, target, stop, triggerOpen, final);
      && (outcome == StopFirst && triggerOpen < stop ==> fill == triggerOpen)
      && (outcome == StopFirst && stop <= triggerOpen ==> fill == stop)
      && (outcome == TargetFirst ==> fill == target)
      && (outcome == Timeout ==> fill == final)
  {}

  /** The matrices and the ATR column that hold the given paths. */
  function Encode(width: nat, paths: seq<seq<Bar>>, atr: seq<real>): Paths
    requires forall i :: 0 <= i < |paths| ==> |paths[i]| == width
  {
    Paths(Matrix(width, seq(|paths|, i requires 0 <= i < |paths| => seq(width, j requires 0 <= j < width => Some(paths[i][j].open)))),
          Matrix(width, seq(|paths|, i requires 0 <= i < |paths| => seq(width, j requires 0 <= j < width => Some(paths[i][j].high)))),
          Matrix(width, seq(|paths|, i requires 0 <= i < |paths| => seq(width, j requires 0 <= j < width => Some(paths[i][j].low)))),
          Matrix(width, seq(|paths|, i requires 0 <= i < |paths| => seq(width, j requires 0 <= j < width => Some(paths[i][j].close)))),
          seq(|atr|, i requires 0 <= i < |atr| => Some(atr[i])))
  }

  /** Which paths are accepted: those of one width, at least one bar, with an ATR each, a positive entry
      and ATR, and a stop above zero; and what is read back are the paths. */
  lemma EncodedIsAcceptedExactlyWhen(width: nat, paths: seq<seq<Bar>>, atr: seq<real>, policy: Policy)
    requires forall i :: 0 <= i < |paths| ==> |paths[i]| == width
    ensures AreMatrices(Encode(width, paths, atr))
    ensures Accepted(Encode(width, paths, atr), policy) <==>
      && |atr| == |paths| && width >= 1
      && forall i :: 0 <= i < |paths| ==>
           paths[i][0].open > 0.0 && atr[i] > 0.0 && paths[i][0].open - policy.stopAtr * atr[i] > 0.0
    ensures Accepted(Encode(width, paths, atr), policy) ==>
      forall i :: 0 <= i < |paths| ==> BarsOf(Encode(width, paths, atr), i) == paths[i]
  {
    hide StopPrice;
    var p := Encode(width, paths, atr);
    if |atr| == |paths| && width >= 1 {
      assert Shaped(p);
      forall i | 0 <= i < |paths|
        ensures ValidRow(p, i) <==> paths[i][0].open > 0.0 && atr[i] > 0.0
        ensures ValidRow(p, i) ==> BarsOf(p, i) == paths[i]
      {
        EncodedRow(width, paths, atr, i);
      }
      forall i | 0 <= i < |paths|
        ensures StopPrice(paths[i][0].open, atr[i], policy) == paths[i][0].open - policy.stopAtr * atr[i]
      {
        StopIs(paths[i][0].open, atr[i], policy);
      }
    }
  }

  lemma StopIs(entry: real, atr: real, policy: Policy)
    ensures StopPrice(entry, atr, policy) == entry - policy.stopAtr * atr
  {}

  lemma EncodedRow(width: nat, paths: seq<seq<Bar>>, atr: seq<real>, i: nat)
    requires forall k :: 0 <= k < |paths| ==> |paths[k]| == width
    requires |atr| == |paths| && width >= 1 && i < |paths|
    ensures Shaped(Encode(width, paths, atr))
    ensures ValidRow(Encode(width, paths, atr), i) <==> paths[i][0].open > 0.0 && atr[i] > 0.0
    ensures ValidRow(Encode(width, paths, atr), i) ==> BarsOf(Encode(width, paths, atr), i) == paths[i]
  {}

  function PathsOf(p: Paths): seq<seq<Bar>>
    requires Shaped(p) && AllValid(p)
  {
    seq(|p.atr|, i requires 0 <= i < |p.atr| => BarsOf(p, i))
  }

  function AtrOf(p: Paths): seq<real>
    requires Shaped(p) && AllValid(p)
  {
    seq(|p.atr|, i requires 0 <= i < |p.atr| => if ValidRow(p, i) then p.atr[i].value else 0.0)
  }

  /** Nothing else is accepted: an accepted input is the encoding of its own paths. */
  lemma AcceptedIsEncoded(p: Paths, policy: Policy)
    requires AreMatrices(p) && Accepted(p, policy)
    ensures forall i :: 0 <= i < |p.atr| ==> |PathsOf(p)[i]| == p.opens.width
    ensures Encode(p.opens.width, PathsOf(p), AtrOf(p)) == p
  {
    hide StopPrice;
    var q := Encode(p.opens.width, PathsOf(p), AtrOf(p));
    forall i | 0 <= i < |p.atr|
      ensures q.opens.rows[i] == p.opens.rows[i] && q.highs.rows[i] == p.highs.rows[i]
      ensures q.lows.rows[i] == p.lows.rows[i] && q.closes.rows[i] == p.closes.rows[i]
      ensures q.atr[i] == p.atr[i]
    {
      assert ValidRow(p, i) && PathsOf(p)[i] == BarsOf(p, i);
    }
    assert q.opens == p.opens && q.highs == p.highs && q.lows == p.lows && q.closes == p.closes && q.atr == p.atr;
  }

  /** Once a barrier is touched, the bars behind it do not matter: another path that starts with the
      same bars gives the same result in every column. */
  lemma LaterBarsDoNotMatter(bars: seq<Bar>, others: seq<Bar>, atr: real, policy: Policy)
    requires bars != [] && bars[0].open > 0.0
    requires
      var r := ScanPath(bars, atr, policy);
      !r.timeout && r.offset < |others| && r.offset < |bars| && others[..r.offset + 1] == bars[..r.offset + 1]
    ensures others[0] == bars[0] && ScanPath(others, atr, policy) == ScanPath(bars, atr, policy)
  {
    hide Scan, TargetPrice, StopPrice, Touched;
    OutcomeIsTheFirstTouch(bars, atr, policy);
    var r := ScanPath(bars, atr, policy);
    var k := r.offset;
    forall j | 0 <= j <= k ensures others[j] == bars[j] {
      assert others[..k + 1][j] == bars[..k + 1][j];
    }
    TouchedAtOffset(bars, atr, policy);
    ScanStopsAt(others, r.target, r.stop, 0, k);
    ScanStopsAt(bars, r.target, r.stop, 0, k);
    ExtremesOfPrefix(bars, others, k);
  }

  lemma TouchedAtOffset(bars: seq<Bar>, atr: real, policy: Policy)
    requires bars != [] && bars[0].open > 0.0
    ensures
      var r := ScanPath(bars, atr, policy);
      r.offset < |bars| && (!r.timeout ==> Touched(bars[r.offset], r.target, r.stop))
  {
    OutcomeIsTheFirstTouch(bars, atr, policy);
  }

  lemma {:induction false} ExtremesOfPrefix(bars: seq<Bar>, others: seq<Bar>, k: nat)
    requires k < |bars| && k < |others| && forall j :: 0 <= j <= k ==> others[j] == bars[j]
    ensures Highest(others, k) == Highest(bars, k) && Lowest(others, k) == Lowest(bars, k)
  {
    if k > 0 {
      ExtremesOfPrefix(bars, others, k - 1);
    }
  }

  /** A bar whose open and close lie between its low and its high. */
  predicate Coherent(bar: Bar) {
    bar.low <= bar.open <= bar.high && bar.low <= bar.close <= bar.high
  }

  lemma NoReturn(entry: real)
    requires entry > 0.0
    ensures entry / entry - 1.0 == 0.0
  {}

  lemma ReturnOrder(a: real, b: real, entry: real)
    requires entry > 0.0
    ensures a / entry - 1.0 <= b / entry - 1.0 <==> a <= b
  {
    assert b / entry - a / entry == (b - a) / entry;
    if a <= b {
      assert (b - a) / entry >= 0.0;
    } else {
      assert (a - b) / entry > 0.0;
      assert (b - a) / entry == -((a - b) / entry);
    }
  }

  /** On coherent bars the favourable excursion bounds the gross return and the excursions enclose
      zero, whatever the policy. The adverse excursion bounds the return exactly when the target
      multiple is not negative, or the first bar's low reaches the stop or the target. */
  lemma ReturnLiesBetweenTheExcursions(bars: seq<Bar>, atr: real, policy: Policy)
    requires bars != [] && bars[0].open > 0.0 && atr > 0.0
    requires forall k :: 0 <= k < |bars| ==> Coherent(bars[k])
    ensures
      var r := ScanPath(bars, atr, policy);
      && r.mae <= 0.0 <= r.mfe && r.gross <= r.mfe
      && (r.mae <= r.gross <==> policy.targetAtr >= 0.0 || bars[0].low <= r.stop || bars[0].low <= r.target)
  {
    hide Scan, Highest, Lowest;
    OutcomeIsTheFirstTouch(bars, atr, policy);
    var r := ScanPath(bars, atr, policy);
    var (entry, k) := (bars[0].open, r.offset);
    var (high, low) := (Highest(bars, k), Lowest(bars, k));
    assert low <= bars[0].low <= entry <= bars[0].high <= high;
    assert low <= bars[k].low && bars[k].high <= high;
    NoReturn(entry);
    ReturnOrder(low, entry, entry);
    ReturnOrder(entry, high, entry);
    ReturnOrder(r.realized, high, entry);
    ReturnOrder(low, r.realized, entry);
    TargetSide(entry, atr, policy);
    if policy.targetAtr < 0.0 {
      assert Touched(bars[0], r.target, r.stop);
      assert k == 0;
    }
  }

  /** An accepted path where it fails: a target below the first low is reached at once, and the fill at
      the target lies below everything the path traded at. */
  lemma NegativeTargetBreaksTheBound()
    ensures
      var bar := Bar(100.0, 101.0, 99.0, 100.0);
      var cell := (x: real) => Matrix(1, [[Some(x)]]);
      var p := Paths(cell(bar.open), cell(bar.high), cell(bar.low), cell(bar.close), [Some(1.0)]);
      var policy := Policy(-2.0, 5.0, 0.0);
      var r := ScanPath([bar], 1.0, policy);
      && AreMatrices(p) && Accepted(p, policy) && BarsOf(p, 0) == [bar] && Coherent(bar)
      && r.targetFirst && r.mae > r.gross
  {
    var bar := Bar(100.0, 101.0, 99.0, 100.0);
    var policy := Policy(-2.0, 5.0, 0.0);
    var p := Paths(Matrix(1, [[Some(100.0)]]), Matrix(1, [[Some(101.0)]]), Matrix(1, [[Some(99.0)]]), Matrix(1, [[Some(100.0)]]),
                   [Some(1.0)]);
    assert ValidRow(p, 0);
    assert BarsOf(p, 0) == [bar];
    assert TargetPrice(100.0, 1.0, policy) == 98.0 && StopPrice(100.0, 1.0, policy) == 95.0;
    assert Scan([bar], 98.0, 95.0, 0) == Touch(TargetFirst, 0);
    assert Lowest([bar], 0) == 99.0;
  }

  lemma TargetSide(entry: real, atr: real, policy: Policy)
    requires atr > 0.0
    ensures TargetPrice(entry, atr, policy) >= entry <==> policy.targetAtr >= 0.0
  {}

  // ----- the sequential form in the feature table -----

  datatype FrameRow = FrameRow(open: Option<real>, high: Option<real>, low: Option<real>, atr: Option<real>)

  /** Comparisons with a missing price are false. */
  predicate RowHitsStop(row: FrameRow, stop: real) { row.low.Some? && row.low.value <= stop }

  predicate RowHitsTarget(row: FrameRow, target: real) { row.high.Some? && row.high.value >= target }

  function LastOf(frame: seq<FrameRow>, idx: nat, horizonDays: int): int {
    if idx + horizonDays <= |frame| - 1 then idx + horizonDays else |frame| - 1
  }

  /** The row has a path, an entry price and a positive ATR. */
  predicate Labelled(frame: seq<FrameRow>, idx: nat, horizonDays: int)
    requires idx < |frame|
  {
    && idx + 1 <= LastOf(frame, idx, horizonDays)
    && frame[idx + 1].open.Some? && frame[idx].atr.Some? && frame[idx].atr.value > 0.0
  }

  /** Some row of the path reaches the target and not the stop, and no earlier one reaches either. */
  ghost predicate Favorable(frame: seq<FrameRow>, from: nat, to: nat, target: real, stop: real)
    requires to < |frame|
  {
    exists k :: from <= k <= to && RowHitsTarget(frame[k], target) && !RowHitsStop(frame[k], stop) &&
      forall j :: from <= j < k ==> !RowHitsTarget(frame[j], target) && !RowHitsStop(frame[j], stop)
  }

  /** The label of row `idx`: none when the row cannot be labelled, else 1 for a favorable path and 0
      for any other. */
  ghost predicate IsLabel(mark: Option<real>, frame: seq<FrameRow>, idx: nat, horizonDays: int, takeProfitAtr: real, stopLossAtr: real)
    requires idx < |frame|
  {
    if !Labelled(frame, idx, horizonDays) then mark == None
    else
      var (entry, atr) := (frame[idx + 1].open.value, frame[idx].atr.value);
      var to := LastOf(frame, idx, horizonDays);
      mark == Some(if Favorable(frame, idx + 1, to, Above(entry, takeProfitAtr, atr), Below(entry, stopLossAtr, atr)) then 1.0 else 0.0)
  }

  /** Which rows are labelled, and how far their path reaches: at most the horizon and the last row. */
  lemma LabelledExactlyWhen(frame: seq<FrameRow>, idx: nat, horizonDays: int)
    requires idx < |frame|
    ensures Labelled(frame, idx, horizonDays) <==>
      && horizonDays >= 1 && idx + 1 < |frame|
      && frame[idx + 1].open.Some? && frame[idx].atr.Some? && frame[idx].atr.value > 0.0
    ensures
      var to := LastOf(frame, idx, horizonDays);
      to <= idx + horizonDays && to <= |frame| - 1 && (to == idx + horizonDays || to == |frame| - 1)
  {}

  method FavorableBeforeStop(frame: seq<FrameRow>, horizonDays: int, takeProfitAtr: real, stopLossAtr: real)
    returns (outcomes: seq<Option<real>>)
    ensures |outcomes| == |frame|
    ensures forall idx :: 0 <= idx < |frame| ==> IsLabel(outcomes[idx], frame, idx, horizonDays, takeProfitAtr, stopLossAtr)
  {
    hide Favorable, Above, Below;
    outcomes := [];
    for idx := 0 to |frame|
      invariant |outcomes| == idx
      invariant forall i :: 0 <= i < idx ==> IsLabel(outcomes[i], frame, i, horizonDays, takeProfitAtr, stopLossAtr)
    {
      var end := LastOf(frame, idx, horizonDays);
      if idx + 1 > end {
        outcomes := outcomes + [None];
        continue;
      }
      if frame[idx + 1].open.None? || frame[idx].atr.None? || frame[idx].atr.value <= 0.0 {
        outcomes := outcomes + [None];
        continue;
      }
      var entry, atr := frame[idx + 1].open.value, frame[idx].atr.value;
      var result := WalkPath(frame, idx + 1, end, Above(entry, takeProfitAtr, atr), Below(entry, stopLossAtr, atr));
      assert IsLabel(Some(result), frame, idx, horizonDays, takeProfitAtr, stopLossAtr);
      outcomes := outcomes + [Some(result)];
    }
  }

  /** The inner loop over the rows of one path. */
  method WalkPath(frame: seq<FrameRow>, from: nat, to: nat, target: real, stop: real) returns (result: real)
    requires from <= to < |frame|
    ensures result == if Favorable(frame, from, to, target, stop) then 1.0 else 0.0
  {
    result := 0.0;
    for row := from to to + 1
      invariant result == 0.0
      invariant forall j :: from <= j < row ==> !RowHitsTarget(frame[j], target) && !RowHitsStop(frame[j], stop)
    {
      var hitStop := RowHitsStop(frame[row], stop);
      var hitTarget := RowHitsTarget(frame[row], target);
      if hitStop && hitTarget {
        return 0.0;
      }
      if hitTarget {
        return 1.0;
      }
      if hitStop {
        return 0.0;
      }
    }
  }

  /** The bars of the evaluator are the finite rows of the frame. */
  ghost predicate SamePath(frame: seq<FrameRow>, from: nat, to: nat, bars: seq<Bar>)
    requires from <= to < |frame|
  {
    && |bars| == to + 1 - from
    && forall j :: 0 <= j < |bars| ==>
      frame[from + j].open == Some(bars[j].open) && frame[from + j].high == Some(bars[j].high) && frame[from + j].low == Some(bars[j].low)
  }

  ghost predicate FavorableBars(bars: seq<Bar>, target: real, stop: real) {
    exists k :: 0 <= k < |bars| && IsFavorableTouch(bars, target, stop, k)
  }

  ghost predicate IsFavorableTouch(bars: seq<Bar>, target: real, stop: real, k: nat)
    requires k < |bars|
  {
    && bars[k].high >= target && bars[k].low > stop
    && forall j :: 0 <= j < k ==> !Touched(bars[j], target, stop)
  }

  lemma RowIsBar(frame: seq<FrameRow>, from: nat, to: nat, bars: seq<Bar>, target: real, stop: real, j: nat)
    requires from <= to < |frame| && SamePath(frame, from, to, bars) && from <= j <= to
    ensures RowHitsTarget(frame[j], target) <==> bars[j - from].high >= target
    ensures RowHitsStop(frame[j], stop) <==> bars[j - from].low <= stop
  {
    assert frame[j] == frame[from + (j - from)];
  }

  lemma FavorableOnBars(frame: seq<FrameRow>, from: nat, to: nat, bars: seq<Bar>, target: real, stop: real)
    requires from <= to < |frame| && SamePath(frame, from, to, bars)
    ensures Favorable(frame, from, to, target, stop) <==> FavorableBars(bars, target, stop)
  {
    hide SamePath, RowHitsTarget, RowHitsStop;
    PathLength(frame, from, to, bars);
    forall j | from <= j <= to
      ensures RowHitsTarget(frame[j], target) <==> bars[j - from].high >= target
      ensures RowHitsStop(frame[j], stop) <==> bars[j - from].low <= stop
    {
      RowIsBar(frame, from, to, bars, target, stop, j);
    }
    if Favorable(frame, from, to, target, stop) {
      var k :| from <= k <= to && RowHitsTarget(frame[k], target) && !RowHitsStop(frame[k], stop) &&
        forall j :: from <= j < k ==> !RowHitsTarget(frame[j], target) && !RowHitsStop(frame[j], stop);
      forall j | 0 <= j < k - from ensures !Touched(bars[j], target, stop) {
        assert !RowHitsTarget(frame[from + j], target) && !RowHitsStop(frame[from + j], stop);
      }
      assert IsFavorableTouch(bars, target, stop, k - from);
    }
    if FavorableBars(bars, target, stop) {
      var k :| 0 <= k < |bars| && IsFavorableTouch(bars, target, stop, k);
      forall j | from <= j < from + k ensures !RowHitsTarget(frame[j], target) && !RowHitsStop(frame[j], stop) {
        assert !Touched(bars[j - from], target, stop);
      }
      assert RowHitsTarget(frame[from + k], target);
    }
  }

  lemma PathLength(frame: seq<FrameRow>, from: nat, to: nat, bars: seq<Bar>)
    requires from <= to < |frame| && SamePath(frame, from, to, bars)
    ensures |bars| == to + 1 - from && frame[from].open == Some(bars[0].open)
  {
    assert frame[from + 0].open == Some(bars[0].open);
  }

  lemma TargetFirstIsFavorableBars(bars: seq<Bar>, atr: real, policy: Policy)
    requires bars != [] && bars[0].open > 0.0
    ensures
      var r := ScanPath(bars, atr, policy);
      r.targetFirst <==> FavorableBars(bars, r.target, r.stop)
  {
    hide Scan, TargetPrice, StopPrice;
    OutcomeIsTheFirstTouch(bars, atr, policy);
    var r := ScanPath(bars, atr, policy);
    if r.targetFirst {
      assert IsFavorableTouch(bars, r.target, r.stop, r.offset);
    }
    if FavorableBars(bars, r.target, r.stop) {
      var k :| 0 <= k < |bars| && IsFavorableTouch(bars, r.target, r.stop, k);
      assert Touched(bars[k], r.target, r.stop);
    }
  }

  /** On the same path the two forms agree: the evaluator reports target first exactly when the
      sequential form labels the row 1. */
  lemma TargetFirstIsFavorable(frame: seq<FrameRow>, idx: nat, horizonDays: int, bars: seq<Bar>, policy: Policy, mark: Option<real>)
    requires idx < |frame| && Labelled(frame, idx, horizonDays)
    requires SamePath(frame, idx + 1, LastOf(frame, idx, horizonDays), bars) && bars[0].open > 0.0
    requires IsLabel(mark, frame, idx, horizonDays, policy.targetAtr, policy.stopAtr)
    ensures ScanPath(bars, frame[idx].atr.value, policy).targetFirst <==> mark == Some(1.0)
  {
    hide Scan, Favorable, FavorableBars, SamePath, Above, Below;
    var (from, to) := (idx + 1, LastOf(frame, idx, horizonDays));
    PathLength(frame, from, to, bars);
    var r := ScanPath(bars, frame[idx].atr.value, policy);
    TargetFirstIsFavorableBars(bars, frame[idx].atr.value, policy);
    FavorableOnBars(frame, from, to, bars, r.target, r.stop);
  }
}
