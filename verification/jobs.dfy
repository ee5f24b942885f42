/** The progress arithmetic of one `Job` from job.py: the weight plan, the
    active child, the clamped child progress and the integer percentage every
    mutation reports. How reports travel to callbacks, and how subjobs feed
    their parents, is in module JobTree. */
module Jobs {
  import opened Results

  /** What `Job.__init__` accepts as `job_proportions`: an integer `n`
      (meaning `n` children of weight 1) or an explicit sequence of weights. */
  datatype Plan = Count(n: int) | Weights(ws: seq<int>)

  /** The exceptions the progress machinery can raise. `ZeroDivisionError`
      is what Python raises when `_do_update` divides by a zero total, or
      when `iter_with_progress` takes `count % every` with `every == 0`. */
  datatype JobError = JobCountError | JobCancelled | ZeroDivisionError

  /** The fields of a Python `Job` other than its callback:
      `plan` is `_job_proportions` (weights not started yet), `total` is
      `_jobcount`, `current` is `_current_job` (weight of the active child),
      `passed` is `_passed_jobs`, `progress` is `_progress` and `currmax` is
      `_currmax`. */
  datatype Job = Job(plan: seq<int>, total: int, current: int, passed: int, progress: int, currmax: int)

  /** A mutation's new state together with the percentage it hands to the
      callback, or the exception raised instead. */
  datatype Step = Step(job: Job, outcome: Result<int, JobError>)

  // ---- integer helpers ----

  function Max(a: int, b: int): (m: int)
    ensures m >= a && m >= b && (m == a || m == b)
  {
    if a >= b then a else b
  }

  function Sum(ws: seq<int>): int {
    if |ws| == 0 then 0 else ws[0] + Sum(ws[1..])
  }

  predicate AllNonNegative(ws: seq<int>) {
    forall i :: 0 <= i < |ws| ==> ws[i] >= 0
  }

  lemma {:induction false} SumNonNegative(ws: seq<int>)
    requires AllNonNegative(ws)
    ensures Sum(ws) >= 0
  {
    if |ws| > 0 {
      SumNonNegative(ws[1..]);
    }
  }

  /** Python's floor division `a // b`, which rounds toward negative infinity
      for either sign of `b` (Dafny's `/` agrees only for positive `b`). */
  function FloorDiv(a: int, b: int): int
    requires b != 0
  {
    if b > 0 then a / b else (-a) / (-b)
  }

  /** `FloorDiv` is the floor of the exact quotient, for either sign of the divisor. */
  lemma FloorDivIsFloor(a: int, b: int)
    requires b != 0
    ensures b > 0 ==> FloorDiv(a, b) * b <= a < FloorDiv(a, b) * b + b
    ensures b < 0 ==> FloorDiv(a, b) * b >= a > FloorDiv(a, b) * b + b
  {
    if b < 0 {
      var q := (-a) / (-b);
      assert q * (-b) <= -a < q * (-b) + (-b);
    }
  }

  lemma MulLeft(a: int, b: int, c: int)
    requires a <= b && c >= 0
    ensures a * c <= b * c
  {
  }

  lemma DivUnique(a: int, d: int, q: int)
    requires d > 0
    requires q * d <= a < q * d + d
    ensures a / d == q
  {
    var r := a / d;
    assert r * d <= a < r * d + d;
    if r < q {
      MulLeft(r + 1, q, d);
    } else if r > q {
      MulLeft(q + 1, r, d);
    }
  }

  lemma DivMonotone(a: int, b: int, d: int)
    requires d > 0 && a <= b
    ensures a / d <= b / d
  {
    var qa, qb := a / d, b / d;
    assert qa * d <= a < qa * d + d;
    assert qb * d <= b < qb * d + d;
    if qa > qb {
      MulLeft(qb + 1, qa, d);
    }
  }

  lemma DivCancel(x: int, t: int, c: int)
    requires t > 0 && c > 0
    ensures (x * c) / (t * c) == x / t
  {
    var q := x / t;
    assert q * t <= x < q * t + t;
    MulLeft(q * t, x, c);
    MulLeft(x + 1, q * t + t, c);
    assert (q * t) * c == q * (t * c);
    assert (q * t + t) * c == q * (t * c) + t * c;
    DivUnique(x * c, t * c, q);
  }

  // ---- construction ----

  /** `[1] * n`: Python repeats a list zero times for a negative count. */
  function Ones(n: int): (ws: seq<int>)
    ensures |ws| == Max(0, n)
    ensures forall i :: 0 <= i < |ws| ==> ws[i] == 1
  {
    seq(Max(0, n), _ => 1)
  }

  lemma {:induction false} SumOnes(ws: seq<int>)
    requires forall i :: 0 <= i < |ws| ==> ws[i] == 1
    ensures Sum(ws) == |ws|
  {
    if |ws| > 0 {
      SumOnes(ws[1..]);
    }
  }

  function PlanWeights(p: Plan): seq<int> {
    match p
    case Count(n) => Ones(n)
    case Weights(ws) => ws
  }

  /** `Job.__init__` (the callback is kept by module JobTree). */
  function NewJob(p: Plan): (j: Job)
    ensures j.plan == PlanWeights(p)
    ensures p.Count? ==> j.total == Max(0, p.n) && |j.plan| == Max(0, p.n)
    ensures p.Weights? ==> j.total == Sum(p.ws)
    ensures j.current == 0 && j.passed == 0 && j.progress == 0 && j.currmax == 1
    ensures AllNonNegative(j.plan) && j.total > 0 ==> Inv(j) && Report(j) == Ok(0)
  {
    var ws := PlanWeights(p);
    PlanWeightsSum(p);
    var j := Job(ws, Sum(ws), 0, 0, 0, 1);
    ReportWhenNothingDone(j);
    j
  }

  lemma PlanWeightsSum(p: Plan)
    ensures p.Count? ==> Sum(PlanWeights(p)) == Max(0, p.n)
  {
    if p.Count? {
      SumOnes(PlanWeights(p));
    }
  }

  lemma ReportWhenNothingDone(j: Job)
    requires j.passed == 0 && j.progress == 0
    ensures Denominator(j) > 0 ==> Report(j) == Ok(0)
  {
    if Denominator(j) > 0 {
      assert Numerator(j) == 0;
      DivUnique(0, Denominator(j), 0);
    }
  }

  /** The state every well-used job stays in: non-negative weights, a
      positive total that accounts for every weight exactly once, and a
      progress clamped into `[0, currmax]` with `currmax >= 1`. */
  predicate Inv(j: Job) {
    && AllNonNegative(j.plan)
    && j.current >= 0
    && j.passed >= 0
    && j.passed + j.current + Sum(j.plan) == j.total
    && j.total > 0
    && j.currmax >= 1
    && 0 <= j.progress <= j.currmax
  }

  // ---- the reported percentage ----

  function Numerator(j: Job): int {
    j.passed * j.currmax + j.current * j.progress
  }

  function Denominator(j: Job): int {
    j.total * j.currmax
  }

  /** `_do_update`'s percentage: `((passed*currmax + current*progress)*100)
      // (total*currmax)`, or the ZeroDivisionError Python raises when the
      denominator is zero. The value is the floor of the exact ratio. */
  function Report(j: Job): (r: Result<int, JobError>)
    ensures r.Err? <==> Denominator(j) == 0
    ensures r.Err? ==> r.error == ZeroDivisionError
  {
    if Denominator(j) == 0 then Err(ZeroDivisionError)
    else Ok(FloorDiv(Numerator(j) * 100, Denominator(j)))
  }

  /** With a positive denominator the report is the floor of
      `100 * Numerator / Denominator`: the largest integer whose multiple of
      the denominator does not exceed `100 * Numerator`. */
  lemma ReportIsFloor(j: Job)
    requires Denominator(j) > 0
    ensures Report(j).Ok?
    ensures Report(j).value * Denominator(j) <= Numerator(j) * 100 < Report(j).value * Denominator(j) + Denominator(j)
  {
    FloorDivIsFloor(Numerator(j) * 100, Denominator(j));
  }

  lemma ReportBounds(j: Job)
    requires Inv(j)
    ensures Report(j).Ok?
    ensures 0 <= Report(j).value <= 100
  {
    var d := Denominator(j);
    SumNonNegative(j.plan);
    MulLeft(j.progress, j.currmax, j.current);
    MulLeft(j.passed + j.current, j.total, j.currmax);
    assert 0 <= Numerator(j) <= d;
    DivMonotone(Numerator(j) * 100, d * 100, d);
    DivMonotone(0, Numerator(j) * 100, d);
    DivUnique(d * 100, d, 100);
    DivUnique(0, d, 0);
  }

  /** A well-used job reports exactly 100 when, and only when, no planned
      weight is left and the active child is complete (or weightless). */
  lemma ReportHundredIff(j: Job)
    requires Inv(j)
    ensures Report(j).Ok?
    ensures Report(j).value == 100 <==> Sum(j.plan) == 0 && (j.current == 0 || j.progress == j.currmax)
  {
    SumNonNegative(j.plan);
    MulLeft(j.progress, j.currmax, j.current);
    MulLeft(j.passed + j.current, j.total, j.currmax);
    FullIff(j.passed, j.current, Sum(j.plan), j.progress, j.currmax);
    HundredIffFull(Numerator(j), Denominator(j));
  }

  /** The floor of `100 * n / d` for `0 <= n <= d` is 100 exactly when `n == d`. */
  lemma HundredIffFull(n: int, d: int)
    requires 0 <= n <= d && d > 0
    ensures (n * 100) / d == 100 <==> n == d
  {
    var q := (n * 100) / d;
    assert q * d <= n * 100 < q * d + d;
    if n == d {
      DivUnique(d * 100, d, 100);
    } else if q >= 100 {
      MulLeft(100, q, d);
      assert false;
    }
  }

  /** The numerator reaches the denominator exactly when nothing is planned
      any more and the active child is complete or weightless. */
  lemma FullIff(passed: int, current: int, rest: int, progress: int, c: int)
    requires passed >= 0 && current >= 0 && rest >= 0 && 1 <= c && 0 <= progress <= c
    ensures passed * c + current * progress == (passed + current + rest) * c
      <==> rest == 0 && (current == 0 || progress == c)
  {
    assert (passed + current + rest) * c == passed * c + current * c + rest * c;
    assert current * c - current * progress == current * (c - progress);
    MulLeft(0, c - progress, current);
    if rest > 0 {
      MulLeft(1, rest, c);
    }
    if current > 0 && progress < c {
      MulLeft(1, current, c - progress);
    }
  }

  // ---- mutations ----

  /** `set_progress`'s state change: the progress is clamped into `[0, currmax]`. */
  function SetProgress(j: Job, progress: int): (r: Job)
    ensures r == j.(progress := r.progress)
    ensures j.currmax >= 0 ==> 0 <= r.progress <= j.currmax
    ensures 0 <= progress <= j.currmax ==> r.progress == progress
    ensures progress > j.currmax >= 0 ==> r.progress == j.currmax
    ensures progress < 0 ==> r.progress == 0
  {
    var p := if progress > j.currmax then j.currmax else progress;
    j.(progress := if p < 0 then 0 else p)
  }

  /** `add_progress`'s state change: the progress moves by `delta` and is
      clamped into `[0, currmax]`; nothing else changes. */
  function AddProgress(j: Job, delta: int): (r: Job)
    ensures r == j.(progress := r.progress)
    ensures j.currmax >= 0 ==> 0 <= r.progress <= j.currmax
    ensures 0 <= j.progress + delta <= j.currmax ==> r.progress == j.progress + delta
    ensures j.progress + delta > j.currmax >= 0 ==> r.progress == j.currmax
    ensures j.progress + delta < 0 ==> r.progress == 0
    ensures 0 <= j.progress <= j.currmax && delta >= 0 ==> r.progress >= j.progress
  {
    SetProgress(j, j.progress + delta)
  }

  /** `start_job`: the finished child's weight is added to `passed` first;
      then either the plan is exhausted (JobCountError, with `passed`
      already incremented and nothing reported) or the next weight becomes
      active with progress 0 and maximum `max(1, maxProgress)`, and the
      report is the floor of `100 * passed / total`. */
  function StartJob(j: Job, maxProgress: int): (s: Step)
    ensures |j.plan| == 0 ==>
      s.outcome == Err(JobCountError) && s.job == j.(passed := j.passed + j.current)
    ensures |j.plan| > 0 ==>
      && s.job.passed == j.passed + j.current
      && s.job.current == j.plan[0]
      && s.job.plan == j.plan[1..]
      && s.job.progress == 0
      && s.job.currmax == Max(1, maxProgress)
      && s.job.total == j.total
    ensures |j.plan| > 0 ==> s.outcome == Report(s.job)
    ensures |j.plan| > 0 && j.total > 0 ==> s.outcome == Ok((j.passed + j.current) * 100 / j.total)
    ensures |j.plan| > 0 && j.total == 0 ==> s.outcome == Err(ZeroDivisionError)
    ensures Inv(j) && |j.plan| > 0 ==> Inv(s.job)
  {
    var passed := j.passed + j.current;
    if |j.plan| == 0 then
      Step(j.(passed := passed), Err(JobCountError))
    else
      var next := j.(plan := j.plan[1..], current := j.plan[0], passed := passed,
                     progress := 0, currmax := Max(1, maxProgress));
      ReportAfterStart(next);
      Step(next, Report(next))
  }

  /** Just after `start_job` the report depends only on `passed`: the
      `currmax` factor cancels from both sides of the division. */
  lemma ReportAfterStart(j: Job)
    requires j.progress == 0 && j.currmax >= 1
    ensures j.total > 0 ==> Report(j) == Ok(j.passed * 100 / j.total)
  {
    if j.total > 0 {
      assert Numerator(j) * 100 == (j.passed * 100) * j.currmax;
      DivCancel(j.passed * 100, j.total, j.currmax);
    }
  }

  // ---- properties ----

  /** A negative progress reports like 0, one above the maximum like the maximum. */
  lemma ClampEquivalence(j: Job, p: int)
    requires j.currmax >= 0
    ensures p < 0 ==> SetProgress(j, p) == SetProgress(j, 0)
    ensures p > j.currmax ==> SetProgress(j, p) == SetProgress(j, j.currmax)
  {
  }

  /** `add_progress(d)` after `set_progress(p)` with `p` in range is `set_progress(p + d)`. */
  lemma AddAfterSet(j: Job, p: int, d: int)
    requires 0 <= p <= j.currmax
    ensures AddProgress(SetProgress(j, p), d) == SetProgress(j, p + d)
  {
  }

  /** Raising the active child's progress never lowers the report. */
  lemma SetProgressMonotone(j: Job, p1: int, p2: int)
    requires Inv(j) && p1 <= p2
    ensures Report(SetProgress(j, p1)).Ok? && Report(SetProgress(j, p2)).Ok?
    ensures Report(SetProgress(j, p1)).value <= Report(SetProgress(j, p2)).value
  {
    var j1, j2 := SetProgress(j, p1), SetProgress(j, p2);
    assert j1.progress <= j2.progress;
    MulLeft(j1.progress, j2.progress, j.current);
    assert Numerator(j1) <= Numerator(j2);
    DivMonotone(Numerator(j1) * 100, Numerator(j2) * 100, Denominator(j));
  }

  /** Starting the next child never lowers the report. */
  lemma StartJobMonotone(j: Job, m: int)
    requires Inv(j) && |j.plan| > 0
    ensures Report(j).Ok? && StartJob(j, m).outcome.Ok?
    ensures Report(j).value <= StartJob(j, m).outcome.value
  {
    var c := j.currmax;
    MulLeft(j.progress, c, j.current);
    assert Numerator(j) <= (j.passed + j.current) * c;
    DivMonotone(Numerator(j) * 100, ((j.passed + j.current) * 100) * c, j.total * c);
    DivCancel((j.passed + j.current) * 100, j.total, c);
  }

  /** Completing the child just started reports the floor of `100 * w / total`
      where `w` is the summed weight of every child started so far. */
  lemma CompletedChildReport(j: Job, m: int)
    requires Inv(j) && |j.plan| > 0
    ensures var k := StartJob(j, m).job;
      Report(SetProgress(k, k.currmax)) == Ok((j.passed + j.current + j.plan[0]) * 100 / j.total)
  {
    var k := StartJob(j, m).job;
    var done := SetProgress(k, k.currmax);
    assert Numerator(done) * 100 == ((k.passed + k.current) * 100) * k.currmax;
    DivCancel((k.passed + k.current) * 100, k.total, k.currmax);
  }

  /** `Job(0)` rejects its first `start_job`. */
  lemma ZeroCountRejectsStart(m: int)
    ensures StartJob(NewJob(Count(0)), m).outcome == Err(JobCountError)
  {
  }

  /** After a JobCountError has been caught, `passed` already counts the last
      child while `current` still holds its weight, so a later
      `set_progress` can report more than 100. `j` is a fresh `Job(1)`
      (see SingleChildJob). */
  lemma OvershootAfterCountError(j: Job)
    requires j == Job([1], 1, 0, 0, 0, 1)
    ensures var full := SetProgress(StartJob(j, 100).job, 100);
      var k := StartJob(full, 100);
      k.outcome == Err(JobCountError) && Report(SetProgress(k.job, 100)) == Ok(200)
  {
    var started := StartJob(j, 100).job;
    assert started.passed == 0 && started.current == 1 && started.progress == 0;
    assert started.currmax == 100 && started.total == 1 && started.plan == [];
    var full := SetProgress(started, 100);
    assert full == Job([], 1, 1, 0, 100, 100);
    CountErrorAfterLastChild(full);
    OverReport(full.(passed := 1));
  }

  lemma CountErrorAfterLastChild(full: Job)
    requires full == Job([], 1, 1, 0, 100, 100)
    ensures StartJob(full, 100) == Step(full.(passed := 1), Err(JobCountError))
  {
  }

  lemma SingleChildJob()
    ensures NewJob(Count(1)) == Job([1], 1, 0, 0, 0, 1)
  {
    var ws := Ones(1);
    assert ws == [1];
    assert Sum(ws) == 1 + Sum([]);
  }

  lemma OverReport(over: Job)
    requires over == Job([], 1, 1, 1, 100, 100)
    ensures Report(SetProgress(over, 100)) == Ok(200)
  {
    assert Numerator(over) == 200 && Denominator(over) == 100;
    DivUnique(20000, 100, 200);
  }

  /** Runs every planned child to completion: `start_job(maxes[i])` then
      `set_progress(max)` for each, collecting the two reports of every round. */
  method RunToCompletion(j: Job, maxes: seq<int>) returns (reports: seq<int>, last: Job)
    requires Inv(j) && j.passed == 0 && j.current == 0
    requires |maxes| == |j.plan|
    ensures |reports| == 2 * |maxes|
    ensures forall i :: 0 <= i < |reports| ==> 0 <= reports[i] <= 100
    ensures forall i :: 0 < i < |reports| ==> reports[i - 1] <= reports[i]
    ensures forall i :: 0 <= i < |maxes| ==> reports[2 * i + 1] == Sum(j.plan[..i + 1]) * 100 / j.total
    ensures |maxes| > 0 ==> reports[|reports| - 1] == 100
    ensures Inv(last) && |last.plan| == 0
  {
    reports := [];
    last := j;
    var i := 0;
    while i < |maxes|
      invariant 0 <= i <= |maxes|
      invariant Inv(last)
      invariant last.plan == j.plan[i..]
      invariant last.passed + last.current == Sum(j.plan[..i])
      invariant last.total == j.total
      invariant Rising(reports)
      invariant CompletionsMatch(reports, j.plan, j.total, i)
    {
      PrefixSumStep(j.plan, i);
      var a, b, done := RunRound(last, maxes[i]);
      if i > 0 {
        assert reports[2 * (i - 1) + 1] == Sum(j.plan[..i]) * 100 / j.total;
      }
      RisingAppend(reports, a, b);
      CompletionsAppend(reports, j.plan, j.total, i, a, b);
      reports := reports + [a, b];
      last := done;
      i := i + 1;
    }
    FinishRun(j, reports, |maxes|);
  }

  /** What the rounds of RunToCompletion add up to once the plan is exhausted. */
  lemma FinishRun(j: Job, reports: seq<int>, n: nat)
    requires Inv(j) && j.passed == 0 && j.current == 0 && n == |j.plan|
    requires Rising(reports) && CompletionsMatch(reports, j.plan, j.total, n)
    ensures forall i :: 0 <= i < |reports| ==> 0 <= reports[i] <= 100
    ensures forall i :: 0 < i < |reports| ==> reports[i - 1] <= reports[i]
    ensures forall i :: 0 <= i < n ==> reports[2 * i + 1] == Sum(j.plan[..i + 1]) * 100 / j.total
    ensures n > 0 ==> reports[|reports| - 1] == 100
  {
    if n > 0 {
      assert reports[2 * (n - 1) + 1] == Sum(j.plan[..n]) * 100 / j.total;
      assert j.plan[..n] == j.plan;
      DivUnique(j.total * 100, j.total, 100);
    }
  }

  /** Reports within `[0, 100]` that never go down. */
  predicate Rising(rs: seq<int>) {
    && (forall k :: 0 <= k < |rs| ==> 0 <= rs[k] <= 100)
    && (forall k :: 0 < k < |rs| ==> rs[k - 1] <= rs[k])
  }

  lemma RisingAppend(rs: seq<int>, a: int, b: int)
    requires Rising(rs) && (|rs| > 0 ==> rs[|rs| - 1] <= a) && 0 <= a <= b <= 100
    ensures Rising(rs + [a, b])
  {
  }

  /** The completion reports of the first `i` rounds: the second report of
      round `k` is the floor of the percentage of the first `k + 1` weights. */
  predicate CompletionsMatch(rs: seq<int>, plan: seq<int>, total: int, i: nat)
    requires total > 0
  {
    |rs| == 2 * i && i <= |plan| && forall k :: 0 <= k < i ==> rs[2 * k + 1] == Sum(plan[..k + 1]) * 100 / total
  }

  lemma CompletionsAppend(rs: seq<int>, plan: seq<int>, total: int, i: nat, a: int, b: int)
    requires total > 0 && CompletionsMatch(rs, plan, total, i) && i < |plan|
    requires b == Sum(plan[..i + 1]) * 100 / total
    ensures CompletionsMatch(rs + [a, b], plan, total, i + 1)
  {
    var rs' := rs + [a, b];
    forall k | 0 <= k < i + 1
      ensures rs'[2 * k + 1] == Sum(plan[..k + 1]) * 100 / total
    {
      if k < i {
        assert rs'[2 * k + 1] == rs[2 * k + 1];
      }
    }
  }

  /** One round of RunToCompletion: `start_job(m)` reports `a`, then
      `set_progress(max)` reports `b`. */
  method RunRound(j: Job, m: int) returns (a: int, b: int, done: Job)
    requires Inv(j) && |j.plan| > 0
    ensures StartJob(j, m).outcome == Ok(a)
    ensures done == SetProgress(StartJob(j, m).job, StartJob(j, m).job.currmax) && Report(done) == Ok(b)
    ensures a == (j.passed + j.current) * 100 / j.total
    ensures b == (j.passed + j.current + j.plan[0]) * 100 / j.total
    ensures 0 <= a <= b <= 100
    ensures Inv(done) && done.plan == j.plan[1..] && done.total == j.total
    ensures done.passed + done.current == j.passed + j.current + j.plan[0]
  {
    Round(j, m);
    var started := StartJob(j, m);
    done := SetProgress(started.job, started.job.currmax);
    a, b := started.outcome.value, Report(done).value;
  }

  /** One round of RunToCompletion: start the next child, then complete it.
      Both reports stay in `[0, 100]` and never go down. */
  lemma Round(j: Job, m: int)
    requires Inv(j) && |j.plan| > 0
    ensures var started := StartJob(j, m);
      var done := SetProgress(started.job, started.job.currmax);
      && Report(j).Ok? && started.outcome.Ok? && Report(done).Ok?
      && 0 <= Report(j).value <= started.outcome.value <= Report(done).value <= 100
      && Report(done) == Ok((j.passed + j.current + j.plan[0]) * 100 / j.total)
      && Inv(done) && done.plan == j.plan[1..] && done.total == j.total
      && done.passed + done.current == j.passed + j.current + j.plan[0]
      && done.progress == done.currmax
  {
    var started := StartJob(j, m);
    StartJobMonotone(j, m);
    ReportBounds(j);
    ReportBounds(started.job);
    CompletedChildReport(j, m);
    var done := SetProgress(started.job, started.job.currmax);
    SetProgressMonotone(started.job, 0, started.job.currmax);
    assert SetProgress(started.job, 0) == started.job;
    ReportBounds(done);
  }

  lemma {:induction false} PrefixSumStep(ws: seq<int>, i: int)
    requires 0 <= i < |ws|
    ensures Sum(ws[..i + 1]) == Sum(ws[..i]) + ws[i]
    ensures Sum(ws) == Sum(ws[..i]) + Sum(ws[i..])
  {
    SumSplit(ws[..i + 1], i);
    assert ws[..i + 1][..i] == ws[..i];
    assert ws[..i + 1][i..] == [ws[i]];
    SumSplit(ws, i);
  }

  lemma {:induction false} SumSplit(ws: seq<int>, i: int)
    requires 0 <= i <= |ws|
    ensures Sum(ws) == Sum(ws[..i]) + Sum(ws[i..])
  {
    if i > 0 {
      SumSplit(ws[1..], i - 1);
      assert ws[1..][..i - 1] == ws[1..i];
      assert ws[..i][1..] == ws[1..i];
      assert ws[1..][i - 1..] == ws[i..];
    } else {
      assert ws[..0] == [];
      assert ws[0..] == ws;
    }
  }
}
