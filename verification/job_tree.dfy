/** Nested jobs and callbacks from job.py. A `Job` created by
    `start_subjob` keeps its parent's `_subjob_callback` as its callback, so
    every report it makes becomes the parent's `set_progress`, and so on up
    to the root, whose callback is the caller's. The family of jobs is a
    sequence of nodes in creation order; each node but the root names its
    parent, which was created before it. */
module JobTree {
  import opened Results
  import opened Jobs

  /** One `Job` object and the index of the job whose `_subjob_callback` it
      was given (None for the root, which reports to the caller). */
  datatype Node = Node(job: Job, parent: Option<nat>)

  /** The root's callback: it receives a percentage and a description and
      returns false to ask for cancellation. */
  type Callback = (int, string) -> bool

  /** One invocation of the root callback. */
  datatype Delivery = Delivery(percent: int, desc: string)

  /** What one call does: the new state of every job, the report the root
      callback received (if it was reached), and the exception the call
      raised (if any). State changes made before the exception are kept. */
  datatype Effect = Effect(nodes: seq<Node>, delivered: Option<Delivery>, error: Option<JobError>)

  predicate WellFormed(t: seq<Node>) {
    && |t| >= 1
    && t[0].parent.None?
    && forall i :: 0 < i < |t| ==> t[i].parent.Some? && t[i].parent.value < i
  }

  /** Same jobs, same parent links: only job states may differ. */
  predicate SameShape(a: seq<Node>, b: seq<Node>) {
    |a| == |b| && forall i :: 0 <= i < |a| ==> a[i].parent == b[i].parent
  }

  /** Every job in the family is in the well-used state of Jobs.Inv. */
  predicate AllInv(t: seq<Node>) {
    forall i :: 0 <= i < |t| ==> Inv(t[i].job)
  }

  /** `i` is `k` or one of its ancestors: the jobs a report from `k` passes through. */
  predicate OnChain(t: seq<Node>, k: nat, i: nat)
    requires WellFormed(t) && k < |t|
    decreases k
  {
    i == k || (t[k].parent.Some? && OnChain(t, t[k].parent.value, i))
  }

  lemma {:induction false} OnChainBelow(t: seq<Node>, k: nat, i: nat)
    requires WellFormed(t) && k < |t|
    requires OnChain(t, k, i)
    ensures i <= k
    decreases k
  {
    if i != k {
      OnChainBelow(t, t[k].parent.value, i);
    }
  }

  lemma {:induction false} OnChainSameShape(a: seq<Node>, b: seq<Node>, k: nat, i: nat)
    requires WellFormed(a) && SameShape(a, b) && k < |a|
    ensures WellFormed(b)
    ensures OnChain(a, k, i) <==> OnChain(b, k, i)
    decreases k
  {
    if a[k].parent.Some? {
      OnChainSameShape(a, b, a[k].parent.value, i);
    }
  }

  /** A fresh root job with the given plan. */
  function NewRoot(p: Plan): (t: seq<Node>)
    ensures WellFormed(t) && |t| == 1
    ensures t[0].job == NewJob(p)
    ensures AllNonNegative(PlanWeights(p)) && t[0].job.total > 0 ==> AllInv(t)
  {
    [Node(NewJob(p), None)]
  }

  // ---- reporting ----

  /** `_do_update`'s hand-off of `pct` computed by job `k`: the root calls
      the caller's callback, which cancels by returning false; any other job
      calls its parent's `_subjob_callback`, which is the parent's
      `set_progress` and then returns true, so cancellation is only ever
      raised by the root's callback. */
  function Forward(t: seq<Node>, k: nat, pct: int, desc: string, cb: Callback): (e: Effect)
    requires WellFormed(t) && k < |t|
    requires Report(t[k].job) == Ok(pct)
    ensures SameShape(t, e.nodes)
    ensures forall i :: 0 <= i < |t| && i >= k ==> e.nodes[i] == t[i]
    ensures forall i :: 0 <= i < |t| && !OnChain(t, k, i) ==> e.nodes[i] == t[i]
    ensures e.error == Some(JobCancelled) <==> e.delivered.Some? && !cb(e.delivered.value.percent, desc)
    ensures e.delivered.Some? ==> e.delivered.value.desc == desc
    ensures e.delivered.Some? ==> Report(e.nodes[0].job) == Ok(e.delivered.value.percent)
    ensures e.error.None? ==> e.delivered.Some?
    ensures e.delivered.Some? && e.error.Some? ==> e.error == Some(JobCancelled)
    ensures e.delivered.None? ==> e.error.Some?
    ensures AllInv(t) ==> AllInv(e.nodes) && e.delivered.Some?
    ensures t[k].parent.None? ==> e.delivered == Some(Delivery(pct, desc))
    decreases k, 0
  {
    match t[k].parent
    case None =>
      Effect(t, Some(Delivery(pct, desc)), if cb(pct, desc) then None else Some(JobCancelled))
    case Some(p) =>
      var e := SetProgressAt(t, p, pct, desc, cb);
      OnChainSameShape(t, e.nodes, k, 0);
      e
  }

  /** Hands job `k`'s freshly computed report on, or stops at the exception
      `_do_update` raised while computing it. */
  function Emit(t: seq<Node>, k: nat, r: Result<int, JobError>, desc: string, cb: Callback): (e: Effect)
    requires WellFormed(t) && k < |t|
    requires r == Report(t[k].job)
    ensures SameShape(t, e.nodes)
    ensures forall i :: 0 <= i < |t| && i >= k ==> e.nodes[i] == t[i]
    ensures forall i :: 0 <= i < |t| && !OnChain(t, k, i) ==> e.nodes[i] == t[i]
    ensures e.error == Some(JobCancelled) <==> e.delivered.Some? && !cb(e.delivered.value.percent, desc)
    ensures e.delivered.Some? ==> e.delivered.value.desc == desc
    ensures e.delivered.Some? ==> Report(e.nodes[0].job) == Ok(e.delivered.value.percent)
    ensures e.error.None? ==> e.delivered.Some?
    ensures e.delivered.Some? && e.error.Some? ==> e.error == Some(JobCancelled)
    ensures e.delivered.None? ==> e.error.Some?
    ensures r.Err? ==> e == Effect(t, None, Some(r.error))
    ensures AllInv(t) && r.Ok? ==> AllInv(e.nodes) && e.delivered.Some?
    decreases k, 1
  {
    match r
    case Err(err) => Effect(t, None, Some(err))
    case Ok(pct) => Forward(t, k, pct, desc, cb)
  }

  /** `set_progress` on job `k`: clamp, report, and forward up to the root. */
  function SetProgressAt(t: seq<Node>, k: nat, progress: int, desc: string, cb: Callback): (e: Effect)
    requires WellFormed(t) && k < |t|
    ensures SameShape(t, e.nodes)
    ensures e.nodes[k].job == SetProgress(t[k].job, progress)
    ensures forall i :: 0 <= i < |t| && i > k ==> e.nodes[i] == t[i]
    ensures forall i :: 0 <= i < |t| && !OnChain(t, k, i) ==> e.nodes[i] == t[i]
    ensures e.error == Some(JobCancelled) <==> e.delivered.Some? && !cb(e.delivered.value.percent, desc)
    ensures e.delivered.Some? ==> e.delivered.value.desc == desc
    ensures e.delivered.Some? ==> Report(e.nodes[0].job) == Ok(e.delivered.value.percent)
    ensures e.error.None? ==> e.delivered.Some?
    ensures e.delivered.Some? && e.error.Some? ==> e.error == Some(JobCancelled)
    ensures e.delivered.None? ==> e.error.Some?
    ensures AllInv(t) ==> AllInv(e.nodes) && e.delivered.Some?
    decreases k, 2
  {
    var j := SetProgress(t[k].job, progress);
    var t1 := t[k := t[k].(job := j)];
    SetProgressKeepsInv(t[k].job, progress);
    OnChainSameShape(t, t1, k, 0);
    var e := Emit(t1, k, Report(j), desc, cb);
    OnChainPreserved(t, t1, k);
    e
  }

  lemma OnChainPreserved(a: seq<Node>, b: seq<Node>, k: nat)
    requires WellFormed(a) && SameShape(a, b) && k < |a|
    ensures forall i :: OnChain(a, k, i) <==> OnChain(b, k, i)
  {
    forall i
      ensures OnChain(a, k, i) <==> OnChain(b, k, i)
    {
      OnChainSameShape(a, b, k, i);
    }
  }

  lemma SetProgressKeepsInv(j: Job, progress: int)
    ensures Inv(j) ==> Inv(SetProgress(j, progress))
  {
  }

  /** `add_progress` on job `k`: `set_progress(progress + delta)`. */
  function AddProgressAt(t: seq<Node>, k: nat, delta: int, desc: string, cb: Callback): (e: Effect)
    requires WellFormed(t) && k < |t|
    ensures SameShape(t, e.nodes)
    ensures e.nodes[k].job == AddProgress(t[k].job, delta)
    ensures e.error == Some(JobCancelled) <==> e.delivered.Some? && !cb(e.delivered.value.percent, desc)
    ensures e.error.None? ==> e.delivered.Some? && e.delivered.value.desc == desc
    ensures AllInv(t) ==> AllInv(e.nodes) && e.delivered.Some?
  {
    SetProgressAt(t, k, t[k].job.progress + delta, desc, cb)
  }

  /** `start_job` on job `k`. A JobCountError leaves `passed` already
      incremented and reaches no callback. */
  function StartJobAt(t: seq<Node>, k: nat, maxProgress: int, desc: string, cb: Callback): (e: Effect)
    requires WellFormed(t) && k < |t|
    ensures SameShape(t, e.nodes)
    ensures e.nodes[k].job == StartJob(t[k].job, maxProgress).job
    ensures forall i :: 0 <= i < |t| && i > k ==> e.nodes[i] == t[i]
    ensures |t[k].job.plan| == 0 ==> e == Effect(e.nodes, None, Some(JobCountError))
    ensures e.error == Some(JobCancelled) <==> e.delivered.Some? && !cb(e.delivered.value.percent, desc)
    ensures e.delivered.Some? ==> e.delivered.value.desc == desc
    ensures e.delivered.Some? ==> Report(e.nodes[0].job) == Ok(e.delivered.value.percent)
    ensures e.error.None? ==> e.delivered.Some?
    ensures e.delivered.Some? && e.error.Some? ==> e.error == Some(JobCancelled)
    ensures AllInv(t) && |t[k].job.plan| > 0 ==> AllInv(e.nodes) && e.delivered.Some?
  {
    var s := StartJob(t[k].job, maxProgress);
    var t1 := t[k := t[k].(job := s.job)];
    OnChainSameShape(t, t1, k, 0);
    if |t[k].job.plan| == 0 then Effect(t1, None, Some(JobCountError))
    else Emit(t1, k, s.outcome, desc, cb)
  }

  /** `start_subjob`: `start_job(100)` on job `k`, then a new job with plan
      `p` whose callback is `k`'s `_subjob_callback`. If `start_job` raised,
      no job is created. */
  function StartSubjobAt(t: seq<Node>, k: nat, p: Plan, desc: string, cb: Callback): (r: (Effect, Option<nat>))
    requires WellFormed(t) && k < |t|
    ensures WellFormed(r.0.nodes)
    ensures r.1.Some? <==> r.0.error.None?
    ensures r.1.None? ==> SameShape(t, r.0.nodes)
    ensures r.1.Some? ==>
      && r.1.value == |t|
      && |r.0.nodes| == |t| + 1
      && r.0.nodes[|t|] == Node(NewJob(p), Some(k))
      && r.0.nodes[k].job.currmax == 100
      && r.0.nodes[k].job.progress == 0
    ensures r.0.nodes[k].job == StartJob(t[k].job, 100).job
    ensures r.0.error == Some(JobCancelled) <==> r.0.delivered.Some? && !cb(r.0.delivered.value.percent, desc)
    ensures AllInv(t) && |t[k].job.plan| > 0 && AllNonNegative(PlanWeights(p)) && NewJob(p).total > 0 ==>
      AllInv(r.0.nodes)
  {
    var e := StartJobAt(t, k, 100, desc, cb);
    OnChainSameShape(t, e.nodes, k, 0);
    if e.error.Some? then (e, None)
    else (e.(nodes := e.nodes + [Node(NewJob(p), Some(k))]), Some(|t|))
  }

  // ---- properties of nesting ----

  /** A subjob's report becomes its parent's `set_progress` argument: after
      `set_progress(p)` on a subjob `k` whose report is `pct`, the parent
      holds exactly `SetProgress(parent, pct)`. */
  lemma SubjobFeedsParent(t: seq<Node>, k: nat, p: int, desc: string, cb: Callback)
    requires WellFormed(t) && 0 < k < |t|
    requires Report(SetProgress(t[k].job, p)).Ok?
    ensures var q := t[k].parent.value;
      var pct := Report(SetProgress(t[k].job, p)).value;
      SetProgressAt(t, k, p, desc, cb).nodes[q].job == SetProgress(t[q].job, pct)
  {
    var q := t[k].parent.value;
    var j := SetProgress(t[k].job, p);
    var t1 := t[k := t[k].(job := j)];
    OnChainSameShape(t, t1, k, 0);
    var pct := Report(j).value;
    assert SetProgressAt(t, k, p, desc, cb) == Emit(t1, k, Report(j), desc, cb);
    assert Emit(t1, k, Report(j), desc, cb) == Forward(t1, k, pct, desc, cb);
    assert Forward(t1, k, pct, desc, cb) == SetProgressAt(t1, q, pct, desc, cb);
    assert t1[q] == t[q];
  }

  /** With one subjob under the root, the root callback receives the root's
      report after the root's progress is set to the subjob's report. */
  lemma TwoLevelReport(t: seq<Node>, p: int, desc: string, cb: Callback)
    requires WellFormed(t) && |t| == 2
    requires Report(SetProgress(t[1].job, p)).Ok?
    ensures var pct := Report(SetProgress(t[1].job, p)).value;
      var root := SetProgress(t[0].job, pct);
      Report(root).Ok? ==> SetProgressAt(t, 1, p, desc, cb).delivered == Some(Delivery(Report(root).value, desc))
  {
  }

  /** A subjob that reports 100 completes its parent's active child, since
      `start_subjob` gave that child a maximum of 100. */
  lemma CompletionPropagates(t: seq<Node>, k: nat, p: int, desc: string, cb: Callback)
    requires WellFormed(t) && 0 < k < |t|
    requires t[t[k].parent.value].job.currmax == 100
    requires Report(SetProgress(t[k].job, p)) == Ok(100)
    ensures var q := t[k].parent.value;
      var e := SetProgressAt(t, k, p, desc, cb);
      e.nodes[q].job.progress == e.nodes[q].job.currmax
  {
    SubjobFeedsParent(t, k, p, desc, cb);
  }

  /** If every job is well used, every report reaching the root callback lies in [0, 100]. */
  lemma RootReportsInRange(t: seq<Node>, k: nat, p: int, desc: string, cb: Callback)
    requires WellFormed(t) && k < |t| && AllInv(t)
    ensures var e := SetProgressAt(t, k, p, desc, cb);
      e.delivered.Some? && 0 <= e.delivered.value.percent <= 100
  {
    var e := SetProgressAt(t, k, p, desc, cb);
    ReportBounds(e.nodes[0].job);
  }

  /** The same, for `start_job` on a job whose plan is not exhausted. */
  lemma StartReportsInRange(t: seq<Node>, k: nat, m: int, desc: string, cb: Callback)
    requires WellFormed(t) && k < |t| && AllInv(t) && |t[k].job.plan| > 0
    ensures var e := StartJobAt(t, k, m, desc, cb);
      e.delivered.Some? && 0 <= e.delivered.value.percent <= 100
  {
    var e := StartJobAt(t, k, m, desc, cb);
    ReportBounds(e.nodes[0].job);
  }

  /** The callback's answer decides only whether JobCancelled is raised: the
      job states after the call are the same either way, so cancellation is
      raised after the state has changed. */
  lemma {:induction false} CancellationKeepsState(t: seq<Node>, k: nat, p: int, desc: string, cb: Callback)
    requires WellFormed(t) && k < |t|
    ensures SetProgressAt(t, k, p, desc, cb).nodes == SetProgressAt(t, k, p, desc, NullCallback()).nodes
    ensures SetProgressAt(t, k, p, desc, cb).delivered == SetProgressAt(t, k, p, desc, NullCallback()).delivered
    decreases k
  {
    var j := SetProgress(t[k].job, p);
    var t1 := t[k := t[k].(job := j)];
    OnChainSameShape(t, t1, k, 0);
    var n := NullCallback();
    assert SetProgressAt(t, k, p, desc, cb) == Emit(t1, k, Report(j), desc, cb);
    assert SetProgressAt(t, k, p, desc, n) == Emit(t1, k, Report(j), desc, n);
    match Report(j)
    case Err(_) =>
    case Ok(pct) =>
      match t1[k].parent
      case None =>
      case Some(q) =>
        assert Emit(t1, k, Report(j), desc, cb) == SetProgressAt(t1, q, pct, desc, cb);
        assert Emit(t1, k, Report(j), desc, n) == SetProgressAt(t1, q, pct, desc, n);
        CancellationKeepsState(t1, q, pct, desc, cb);
  }

  /** A root of weights [1, 1] on its second child, whose subjob of
      weights [1, 3] has started its first child: completing that child
      reports 25 to the root's `_subjob_callback`, and the root reports
      (100 + 25) * 100 // 200 = 62. */
  lemma NestedExample(t: seq<Node>, desc: string, cb: Callback)
    requires t == [Node(Job([], 2, 1, 1, 0, 100), None), Node(Job([3], 4, 1, 0, 0, 100), Some(0))]
    ensures SetProgressAt(t, 1, 100, desc, cb).delivered == Some(Delivery(62, desc))
  {
    var child := SetProgress(t[1].job, 100);
    var root := SetProgress(t[0].job, 25);
    NestedChild(t[1].job, child);
    NestedRoot(t[0].job, root);
    TwoLevelReport(t, 100, desc, cb);
  }

  lemma NestedChild(j: Job, child: Job)
    requires j.total == 4 && j.current == 1 && j.passed == 0 && j.currmax == 100
    requires child == SetProgress(j, 100)
    ensures Report(child) == Ok(25)
  {
    SetProgressWithin(j, 100);
    PositiveReport(child, 100, 400);
  }

  lemma NestedRoot(j: Job, root: Job)
    requires j.total == 2 && j.current == 1 && j.passed == 1 && j.currmax == 100
    requires root == SetProgress(j, 25)
    ensures Report(root) == Ok(62)
  {
    SetProgressWithin(j, 25);
    PositiveReport(root, 125, 200);
  }

  lemma SetProgressWithin(j: Job, p: int)
    requires 0 <= p <= j.currmax
    ensures SetProgress(j, p) == j.(progress := p)
  {
  }

  lemma PositiveReport(j: Job, num: int, den: int)
    requires Numerator(j) == num && Denominator(j) == den && den > 0
    ensures Report(j) == Ok(num * 100 / den)
    ensures num == 100 && den == 400 ==> Report(j) == Ok(25)
    ensures num == 125 && den == 200 ==> Report(j) == Ok(62)
  {
  }

  // ---- the null job ----

  /** The callback of `nulljob`: it never cancels. */
  function NullCallback(): (cb: Callback)
    ensures forall p, d :: cb(p, d)
  {
    (p: int, d: string) => true
  }

  /** The number of unit children of `nulljob`. */
  const NullCount: nat := 0xfffff

  /** `nulljob`: a root of `NullCount` unit children. */
  function NullJob(): (t: seq<Node>)
    ensures WellFormed(t) && AllInv(t)
    ensures t[0].job.total == NullCount && |t[0].job.plan| == NullCount
  {
    UnitRoot(NullCount);
    NewRoot(Count(NullCount))
  }

  /** A root of `n` unit children is a well-used job with `n` children to go. */
  lemma UnitRoot(n: nat)
    requires n > 0
    ensures var t := NewRoot(Count(n));
      && WellFormed(t) && AllInv(t)
      && t[0].job.total == n && |t[0].job.plan| == n
  {
    var t := NewRoot(Count(n));
    assert AllNonNegative(PlanWeights(Count(n)));
  }

  /** Nothing reported through the null job's callback is ever cancelled. */
  lemma NullJobNeverCancels(t: seq<Node>, k: nat, p: int, desc: string)
    requires WellFormed(t) && k < |t|
    ensures SetProgressAt(t, k, p, desc, NullCallback()).error != Some(JobCancelled)
    ensures StartJobAt(t, k, p, desc, NullCallback()).error != Some(JobCancelled)
  {
  }

  // ---- iter_with_progress ----

  /** The reports one or more calls delivered, the final states, and the
      exception that stopped them (if any). */
  datatype Run = Run(nodes: seq<Node>, reports: seq<Delivery>, error: Option<JobError>)

  function Then(r: Run, e: Effect): Run {
    Run(e.nodes, r.reports + (if e.delivered.Some? then [e.delivered.value] else []), e.error)
  }

  /** The description `iter_with_progress` passes with the `count`-th
      `add_progress`: refreshed only when `count` is a multiple of `every`. */
  function IterDesc(fmt: Option<(int, int) -> string>, count: int, n: int, every: int, previous: string): string
    requires fmt.None? || every != 0
  {
    if fmt.Some? && count % every == 0 then fmt.value(count, n) else previous
  }

  /** The last count up to `count` at which the description was
      refreshed: the largest multiple of `every` not above it. */
  function LastRefresh(count: nat, every: int): (r: nat)
    requires every != 0
    ensures r <= count && r % every == 0
    ensures forall m :: r < m <= count ==> m % every != 0
  {
    if count == 0 || count % every == 0 then count else LastRefresh(count - 1, every)
  }

  /** The description in force after `count` elements. */
  function RefreshedDesc(fmt: Option<(int, int) -> string>, count: nat, n: int, every: int): string
    requires fmt.None? || every != 0
  {
    if fmt.Some? then fmt.value(LastRefresh(count, every), n) else ""
  }

  /** The description closing the iteration, `desc_format % (n, n)`. */
  function FinalDesc(fmt: Option<(int, int) -> string>, n: int): string {
    if fmt.Some? then fmt.value(n, n) else ""
  }

  /** `iter_with_progress` over a sequence of `n` elements up to its last
      element: `start_job(n)` and one `add_progress()` per element. `fmt`
      is the description format (None for a missing or empty one). */
  function IterSteps(t: seq<Node>, k: nat, n: nat, fmt: Option<(int, int) -> string>, every: int, cb: Callback): (r: Run)
    requires WellFormed(t) && k < |t|
    ensures SameShape(t, r.nodes)
    ensures r.error.None? ==> r.nodes[k].job.progress == n && r.nodes[k].job.currmax == Max(1, n)
  {
    var desc := if fmt.Some? then fmt.value(0, n) else "";
    var started := Then(Run(t, [], None), StartJobAt(t, k, n, desc, cb));
    if started.error.Some? then started
    else
      OnChainSameShape(t, started.nodes, k, 0);
      IterLoop(started, k, 0, n, n, desc, fmt, every, cb)
  }

  /** The loop of `iter_with_progress` over a sequence of `n` elements,
      from element `i` on, for the elements up to `stop` whose
      `add_progress` runs. With a format and `every == 0`, the first of
      them already raises ZeroDivisionError. */
  function IterLoop(r: Run, k: nat, i: nat, stop: nat, n: nat, desc: string, fmt: Option<(int, int) -> string>, every: int, cb: Callback): (s: Run)
    requires WellFormed(r.nodes) && k < |r.nodes| && i <= stop <= n && r.error.None?
    ensures SameShape(r.nodes, s.nodes)
    ensures fmt.Some? && every == 0 && i < stop ==> s == r.(error := Some(ZeroDivisionError))
    ensures s.error.None? && 0 <= r.nodes[k].job.progress && r.nodes[k].job.progress + (stop - i) <= r.nodes[k].job.currmax ==>
      s.nodes[k].job == r.nodes[k].job.(progress := r.nodes[k].job.progress + (stop - i))
    decreases stop - i
  {
    if i == stop then r
    else
      var next := LoopNext(r, k, i, n, desc, fmt, every, cb);
      if next.error.Some? then next
      else IterLoop(next, k, i + 1, stop, n, IterDesc(fmt, i + 1, n, every, desc), fmt, every, cb)
  }

  /** One pass of the loop for element `i + 1`: the test `count % every`
      (made only when there is a format, and raising ZeroDivisionError for
      `every == 0` before anything changes), then `add_progress(desc=...)`. */
  function LoopNext(r: Run, k: nat, i: nat, n: nat, desc: string, fmt: Option<(int, int) -> string>, every: int, cb: Callback): (s: Run)
    requires WellFormed(r.nodes) && k < |r.nodes|
    ensures SameShape(r.nodes, s.nodes) && WellFormed(s.nodes)
    ensures fmt.Some? && every == 0 ==> s == r.(error := Some(ZeroDivisionError))
    ensures fmt.None? || every != 0 ==> s.nodes[k].job == AddProgress(r.nodes[k].job, 1)
    ensures (fmt.None? || every != 0) && s.error.None? ==>
      && |s.reports| == |r.reports| + 1
      && s.reports[..|r.reports|] == r.reports
      && s.reports[|r.reports|].desc == IterDesc(fmt, i + 1, n, every, desc)
  {
    if fmt.Some? && every == 0 then r.(error := Some(ZeroDivisionError))
    else
      var e := AddProgressAt(r.nodes, k, 1, IterDesc(fmt, i + 1, n, every, desc), cb);
      OnChainSameShape(r.nodes, e.nodes, k, 0);
      Then(r, e)
  }

  /** `iter_with_progress` consumed to the end, as written: the loop, then
      `set_progress(100)`. The job's maximum is the element count, so for
      more than 100 elements the last call lowers the progress. */
  function IterWithProgress(t: seq<Node>, k: nat, n: nat, fmt: Option<(int, int) -> string>, every: int, cb: Callback): (r: Run)
    requires WellFormed(t) && k < |t|
    ensures SameShape(t, r.nodes)
    ensures r.error.None? ==> r.nodes[k].job.progress == Min(100, Max(1, n))
    ensures r.error.None? ==> r.nodes[k].job.currmax == Max(1, n)
    ensures r.error.None? && n > 100 ==> r.nodes[k].job.progress < r.nodes[k].job.currmax
  {
    var steps := IterSteps(t, k, n, fmt, every, cb);
    if steps.error.Some? then steps
    else
      OnChainSameShape(t, steps.nodes, k, 0);
      Then(steps, SetProgressAt(steps.nodes, k, 100, FinalDesc(fmt, n), cb))
  }

  /** `iter_with_progress` with its last call setting the job's own maximum,
      which completes the job whatever the element count. */
  function IterWithProgressToMax(t: seq<Node>, k: nat, n: nat, fmt: Option<(int, int) -> string>, every: int, cb: Callback): (r: Run)
    requires WellFormed(t) && k < |t|
    ensures SameShape(t, r.nodes)
    ensures r.error.None? ==> r.nodes[k].job.progress == r.nodes[k].job.currmax == Max(1, n)
  {
    var steps := IterSteps(t, k, n, fmt, every, cb);
    if steps.error.Some? then steps
    else
      OnChainSameShape(t, steps.nodes, k, 0);
      Then(steps, SetProgressAt(steps.nodes, k, steps.nodes[k].job.currmax, FinalDesc(fmt, n), cb))
  }

  /** `iter_with_progress` whose consumer stops after taking `m` of the `n`
      elements, by a `break` or an exception in its loop body. The
      generator stays suspended at its `yield`: nothing at all runs when no
      element was asked for, the `add_progress` of the `m`-th element never
      runs, and neither does the closing `set_progress(100)`. */
  function IterAbandoned(t: seq<Node>, k: nat, n: nat, m: nat, fmt: Option<(int, int) -> string>, every: int, cb: Callback): (r: Run)
    requires WellFormed(t) && k < |t| && m <= n
    ensures SameShape(t, r.nodes)
    ensures m == 0 ==> r == Run(t, [], None)
    ensures m >= 1 && r.error.None? ==>
      && r.nodes[k].job.progress == m - 1
      && r.nodes[k].job.currmax == Max(1, n)
      && r.nodes[k].job.progress < r.nodes[k].job.currmax
  {
    if m == 0 then Run(t, [], None)
    else
      var desc := if fmt.Some? then fmt.value(0, n) else "";
      var started := Then(Run(t, [], None), StartJobAt(t, k, n, desc, cb));
      if started.error.Some? then started
      else
        OnChainSameShape(t, started.nodes, k, 0);
        IterLoop(started, k, 0, m - 1, n, desc, fmt, every, cb)
  }

  function Min(a: int, b: int): (m: int)
    ensures m <= a && m <= b && (m == a || m == b)
  {
    if a <= b then a else b
  }

  /** With a format and `every == 0`, the start report is made and the
      first element raises ZeroDivisionError with the job just started; an
      empty sequence never reaches the test and ends as for any `every`. */
  lemma IterZeroEvery(t: seq<Node>, k: nat, n: nat, fmt: Option<(int, int) -> string>, cb: Callback)
    requires WellFormed(t) && k < |t| && fmt.Some?
    ensures var started := Then(Run(t, [], None), StartJobAt(t, k, n, fmt.value(0, n), cb));
      n >= 1 && started.error.None? ==>
        IterWithProgress(t, k, n, fmt, 0, cb) == started.(error := Some(ZeroDivisionError))
    ensures n == 0 ==> IterWithProgress(t, k, n, fmt, 0, cb) == IterWithProgress(t, k, n, fmt, 1, cb)
  {
    var started := Then(Run(t, [], None), StartJobAt(t, k, n, fmt.value(0, n), cb));
    if started.error.None? {
      OnChainSameShape(t, started.nodes, k, 0);
    }
  }

  // ---- descriptions ----

  lemma RefreshIterDesc(fmt: Option<(int, int) -> string>, count: nat, n: int, every: int)
    requires count >= 1 && (fmt.None? || every != 0)
    ensures IterDesc(fmt, count, n, every, RefreshedDesc(fmt, count - 1, n, every)) == RefreshedDesc(fmt, count, n, every)
  {
  }

  /** The loop hands the `c`-th `add_progress` the description refreshed
      at the last multiple of `every`, one report per element. */
  lemma {:induction false} IterLoopDescs(r: Run, k: nat, i: nat, n: nat, desc: string, fmt: Option<(int, int) -> string>, every: int, cb: Callback)
    requires WellFormed(r.nodes) && k < |r.nodes| && i <= n && r.error.None?
    requires fmt.None? || every != 0
    requires desc == RefreshedDesc(fmt, i, n, every)
    ensures var s := IterLoop(r, k, i, n, n, desc, fmt, every, cb);
      s.error.None? ==> r.reports <= s.reports && DescsFrom(s.reports, |r.reports|, i, n, fmt, every)
    decreases n - i
  {
    if i < n {
      var d := IterDesc(fmt, i + 1, n, every, desc);
      LoopStep(r, k, i, n, desc, fmt, every, cb);
      var next := LoopNext(r, k, i, n, desc, fmt, every, cb);
      if next.error.None? {
        IterLoopDescs(next, k, i + 1, n, d, fmt, every, cb);
        var s := IterLoop(next, k, i + 1, n, n, d, fmt, every, cb);
        if s.error.None? {
          ExtendDescs(r.reports, next.reports, s.reports, i, n, fmt, every);
        }
      }
    }
  }

  /** Reports from index `base` on are one per element `i + 1 .. n`, each
      carrying the description refreshed at the last multiple of `every`. */
  predicate DescsFrom(rs: seq<Delivery>, base: nat, i: nat, n: nat, fmt: Option<(int, int) -> string>, every: int)
    requires fmt.None? || every != 0
  {
    && |rs| == base + (n - i)
    && forall c :: i < c <= n ==> rs[base + (c - i - 1)].desc == RefreshedDesc(fmt, c, n, every)
  }

  /** One unfolding of IterLoop, with what the step adds to the reports. */
  lemma LoopStep(r: Run, k: nat, i: nat, n: nat, desc: string, fmt: Option<(int, int) -> string>, every: int, cb: Callback)
    requires WellFormed(r.nodes) && k < |r.nodes| && i < n && r.error.None?
    requires fmt.None? || every != 0
    requires desc == RefreshedDesc(fmt, i, n, every)
    ensures var next := LoopNext(r, k, i, n, desc, fmt, every, cb);
      var d := IterDesc(fmt, i + 1, n, every, desc);
      && d == RefreshedDesc(fmt, i + 1, n, every)
      && (next.error.None? ==>
        && IterLoop(r, k, i, n, n, desc, fmt, every, cb) == IterLoop(next, k, i + 1, n, n, d, fmt, every, cb)
        && |next.reports| == |r.reports| + 1
        && next.reports[..|r.reports|] == r.reports
        && next.reports[|r.reports|].desc == d)
  {
    RefreshIterDesc(fmt, i + 1, n, every);
  }

  /** Reports `rr`, extended by one report to `nr` and then by the rest to
      `sr`, carry the refreshed descriptions from element `i + 1` on. */
  lemma ExtendDescs(rr: seq<Delivery>, nr: seq<Delivery>, sr: seq<Delivery>, i: nat, n: nat, fmt: Option<(int, int) -> string>, every: int)
    requires i < n && (fmt.None? || every != 0)
    requires |nr| == |rr| + 1 && nr[..|rr|] == rr && nr[|rr|].desc == RefreshedDesc(fmt, i + 1, n, every)
    requires nr <= sr && DescsFrom(sr, |nr|, i + 1, n, fmt, every)
    ensures rr <= sr
    ensures DescsFrom(sr, |rr|, i, n, fmt, every)
  {
    assert sr[|rr|] == nr[|rr|];
    forall c | i < c <= n
      ensures sr[|rr| + (c - i - 1)].desc == RefreshedDesc(fmt, c, n, every)
    {
      if c > i + 1 {
        assert |rr| + (c - i - 1) == |nr| + (c - (i + 1) - 1);
      }
    }
  }

  lemma IterStepsDescs(t: seq<Node>, k: nat, n: nat, fmt: Option<(int, int) -> string>, every: int, cb: Callback)
    requires WellFormed(t) && k < |t| && (fmt.None? || every != 0)
    ensures var r := IterSteps(t, k, n, fmt, every, cb);
      r.error.None? ==>
        && |r.reports| == n + 1
        && forall c :: 0 <= c <= n ==> r.reports[c].desc == RefreshedDesc(fmt, c, n, every)
  {
    var desc := if fmt.Some? then fmt.value(0, n) else "";
    assert desc == RefreshedDesc(fmt, 0, n, every);
    var started := Then(Run(t, [], None), StartJobAt(t, k, n, desc, cb));
    if started.error.None? {
      OnChainSameShape(t, started.nodes, k, 0);
      IterLoopDescs(started, k, 0, n, desc, fmt, every, cb);
      var steps := IterSteps(t, k, n, fmt, every, cb);
      assert steps == IterLoop(started, k, 0, n, n, desc, fmt, every, cb);
      if steps.error.None? {
        assert steps.reports[0] == started.reports[0];
        assert DescsFrom(steps.reports, 1, 0, n, fmt, every);
        forall c | 0 < c <= n
          ensures steps.reports[c].desc == RefreshedDesc(fmt, c, n, every)
        {
          assert 1 + (c - 0 - 1) == c;
        }
      }
    }
  }

  /** When no exception stops it, `iter_with_progress` delivers `n + 2`
      reports: the start, one per element with the description refreshed
      every `every` elements, and the closing one with `desc_format % (n, n)`. */
  lemma IterDescriptions(t: seq<Node>, k: nat, n: nat, fmt: Option<(int, int) -> string>, every: int, cb: Callback)
    requires WellFormed(t) && k < |t| && (fmt.None? || every != 0)
    ensures var r := IterWithProgress(t, k, n, fmt, every, cb);
      r.error.None? ==>
        && |r.reports| == n + 2
        && (forall c :: 0 <= c <= n ==> r.reports[c].desc == RefreshedDesc(fmt, c, n, every))
        && r.reports[n + 1].desc == FinalDesc(fmt, n)
  {
    IterStepsDescs(t, k, n, fmt, every, cb);
    var steps := IterSteps(t, k, n, fmt, every, cb);
    if steps.error.None? {
      OnChainSameShape(t, steps.nodes, k, 0);
      var e := SetProgressAt(steps.nodes, k, 100, FinalDesc(fmt, n), cb);
      assert IterWithProgress(t, k, n, fmt, every, cb) == Then(steps, e);
    }
  }

  // ---- a lone job iterating ----

  /** A lone job of one child of weight `w` (`Job(1)` when `w` is 1),
      before it starts. */
  function Lone(w: int): seq<Node> {
    [Node(Job([w], w, 0, 0, 0, 1), None)]
  }

  /** The same job after `start_job(m)`, with the given progress. */
  function Flat(w: int, p: int, m: int): Job {
    Job([], w, w, 0, p, m)
  }

  lemma FlatReport(w: int, p: int, m: int)
    requires w >= 1 && m >= 1 && 0 <= p
    ensures Report(Flat(w, p, m)) == Ok(p * 100 / m)
  {
    assert Numerator(Flat(w, p, m)) * 100 == (p * 100) * w;
    assert Denominator(Flat(w, p, m)) == m * w;
    DivCancel(p * 100, m, w);
  }

  /** One `add_progress()` on a lone job whose callback never cancels. */
  lemma FlatStep(w: int, i: nat, n: nat, d: string, cb: Callback)
    requires w >= 1 && i < n && forall p, q :: cb(p, q)
    ensures var e := AddProgressAt([Node(Flat(w, i, n), None)], 0, 1, d, cb);
      e == Effect([Node(Flat(w, i + 1, n), None)], Some(Delivery((i + 1) * 100 / n, d)), None)
  {
    var t := [Node(Flat(w, i, n), None)];
    var t1 := [Node(Flat(w, i + 1, n), None)];
    assert SetProgress(Flat(w, i, n), i + 1) == Flat(w, i + 1, n);
    assert t[0 := t[0].(job := Flat(w, i + 1, n))] == t1;
    FlatReport(w, i + 1, n);
    var e := Forward(t1, 0, (i + 1) * 100 / n, d, cb);
    assert e.nodes == t1;
  }

  lemma {:induction false} IterLoopFlat(r: Run, w: int, i: nat, stop: nat, n: nat, desc: string, fmt: Option<(int, int) -> string>, every: int, cb: Callback)
    requires r.nodes == [Node(Flat(w, i, n), None)] && r.error.None? && i <= stop <= n && n >= 1 && w >= 1
    requires fmt.None? || every != 0
    requires forall p, q :: cb(p, q)
    ensures var s := IterLoop(r, 0, i, stop, n, desc, fmt, every, cb);
      && s.error.None?
      && s.nodes == [Node(Flat(w, stop, n), None)]
      && r.reports <= s.reports
      && PercentsFrom(s.reports, |r.reports|, i, stop, n)
    decreases stop - i
  {
    if i < stop {
      var d := IterDesc(fmt, i + 1, n, every, desc);
      FlatStep(w, i, n, d, cb);
      var next := Then(r, AddProgressAt(r.nodes, 0, 1, d, cb));
      IterLoopFlat(next, w, i + 1, stop, n, d, fmt, every, cb);
      var s := IterLoop(next, 0, i + 1, stop, n, d, fmt, every, cb);
      assert IterLoop(r, 0, i, stop, n, desc, fmt, every, cb) == s;
      ExtendPercents(r.reports, next.reports, s.reports, i, stop, n);
    }
  }

  /** Reports from index `base` on are one per element `i + 1 .. stop`, the
      one for element `c` being `c * 100 // n`. */
  predicate PercentsFrom(rs: seq<Delivery>, base: nat, i: nat, stop: nat, n: nat)
    requires n >= 1
  {
    && |rs| == base + (stop - i)
    && forall c :: i < c <= stop ==> rs[base + (c - i - 1)].percent == c * 100 / n
  }

  lemma ExtendPercents(rr: seq<Delivery>, nr: seq<Delivery>, sr: seq<Delivery>, i: nat, stop: nat, n: nat)
    requires i < stop && n >= 1
    requires |nr| == |rr| + 1 && rr <= nr && nr[|rr|].percent == (i + 1) * 100 / n
    requires nr <= sr && PercentsFrom(sr, |nr|, i + 1, stop, n)
    ensures rr <= sr
    ensures PercentsFrom(sr, |rr|, i, stop, n)
  {
    assert sr[|rr|] == nr[|rr|];
    forall c | i < c <= stop
      ensures sr[|rr| + (c - i - 1)].percent == c * 100 / n
    {
      if c > i + 1 {
        assert |rr| + (c - i - 1) == |nr| + (c - (i + 1) - 1);
      }
    }
  }

  /** The start of an iteration over `n >= 1` elements by a lone job. */
  lemma LoneStart(w: int, n: nat, desc: string, cb: Callback)
    requires w >= 1 && n >= 1 && forall p, q :: cb(p, q)
    ensures StartJobAt(Lone(w), 0, n, desc, cb) == Effect([Node(Flat(w, 0, n), None)], Some(Delivery(0, desc)), None)
  {
    var t := Lone(w);
    var s := StartJob(t[0].job, n);
    assert s.job == Flat(w, 0, n);
    var t1 := [Node(Flat(w, 0, n), None)];
    assert t[0 := t[0].(job := s.job)] == t1;
    FlatReport(w, 0, n);
    assert s.outcome == Ok(0);
    assert StartJobAt(t, 0, n, desc, cb) == Emit(t1, 0, Ok(0), desc, cb);
  }

  /** The loop part of a lone job iterating over `n >= 1` elements. */
  lemma LoneSteps(w: int, n: nat, fmt: Option<(int, int) -> string>, every: int, cb: Callback)
    requires w >= 1 && n >= 1 && (fmt.None? || every != 0)
    requires forall p, q :: cb(p, q)
    ensures var r := IterSteps(Lone(w), 0, n, fmt, every, cb);
      && r.error.None?
      && r.nodes == [Node(Flat(w, n, n), None)]
      && |r.reports| == n + 1
      && forall c :: 0 <= c <= n ==> r.reports[c].percent == c * 100 / n
  {
    var t := Lone(w);
    var desc := if fmt.Some? then fmt.value(0, n) else "";
    LoneStart(w, n, desc, cb);
    var started := Then(Run(t, [], None), StartJobAt(t, 0, n, desc, cb));
    assert started == Run([Node(Flat(w, 0, n), None)], [Delivery(0, desc)], None);
    IterLoopFlat(started, w, 0, n, n, desc, fmt, every, cb);
    var steps := IterSteps(t, 0, n, fmt, every, cb);
    assert steps == IterLoop(started, 0, 0, n, n, desc, fmt, every, cb);
    assert steps.reports[0] == started.reports[0];
    forall c | 0 < c <= n
      ensures steps.reports[c].percent == c * 100 / n
    {
      assert 1 + (c - 0 - 1) == c;
    }
  }

  /** A final `set_progress(p)` on a lone job that has seen all `n` elements. */
  lemma LoneFinal(r: Run, w: int, n: nat, p: int, desc: string, cb: Callback)
    requires r.nodes == [Node(Flat(w, n, n), None)] && w >= 1 && n >= 1 && p >= 0
    requires forall x, y :: cb(x, y)
    ensures var e := SetProgressAt(r.nodes, 0, p, desc, cb);
      e.error.None? && e.delivered == Some(Delivery(Min(p, n) * 100 / n, desc))
  {
    var m := Min(p, n);
    assert SetProgress(Flat(w, n, n), p) == Flat(w, m, n);
    FlatReport(w, m, n);
  }

  /** A lone job iterating over `n >= 1` elements, callback never
      cancelling: the report after `c` elements is `c * 100 // n`, and the
      closing `set_progress(100)` reports `min(100, n) * 100 // n`. */
  lemma LoneJobIteration(w: int, n: nat, fmt: Option<(int, int) -> string>, every: int, cb: Callback)
    requires w >= 1 && n >= 1 && (fmt.None? || every != 0)
    requires forall p, q :: cb(p, q)
    ensures var r := IterWithProgress(Lone(w), 0, n, fmt, every, cb);
      && r.error.None?
      && |r.reports| == n + 2
      && (forall c :: 0 <= c <= n ==> r.reports[c].percent == c * 100 / n)
      && r.reports[n + 1].percent == Min(100, n) * 100 / n
  {
    LoneSteps(w, n, fmt, every, cb);
    var steps := IterSteps(Lone(w), 0, n, fmt, every, cb);
    LoneFinal(steps, w, n, 100, FinalDesc(fmt, n), cb);
    var e := SetProgressAt(steps.nodes, 0, 100, FinalDesc(fmt, n), cb);
    assert IterWithProgress(Lone(w), 0, n, fmt, every, cb) == Then(steps, e);
    assert Then(steps, e).reports == steps.reports + [e.delivered.value];
  }

  /** The corrected iteration closes every lone iteration at 100. */
  lemma LoneJobIterationToMax(w: int, n: nat, fmt: Option<(int, int) -> string>, every: int, cb: Callback)
    requires w >= 1 && n >= 1 && (fmt.None? || every != 0)
    requires forall p, q :: cb(p, q)
    ensures var r := IterWithProgressToMax(Lone(w), 0, n, fmt, every, cb);
      && r.error.None?
      && |r.reports| == n + 2
      && (forall c :: 0 <= c <= n ==> r.reports[c].percent == c * 100 / n)
      && r.reports[n + 1].percent == 100
  {
    LoneSteps(w, n, fmt, every, cb);
    var steps := IterSteps(Lone(w), 0, n, fmt, every, cb);
    LoneFinal(steps, w, n, n, FinalDesc(fmt, n), cb);
    var e := SetProgressAt(steps.nodes, 0, n, FinalDesc(fmt, n), cb);
    assert steps.nodes[0].job.currmax == n;
    assert IterWithProgressToMax(Lone(w), 0, n, fmt, every, cb) == Then(steps, e);
    assert Then(steps, e).reports == steps.reports + [e.delivered.value];
    DivUnique(n * 100, n, 100);
  }

  /** A lone job whose iteration over `n` elements is abandoned after `m`
      of them, callback never cancelling: `m` reports `c * 100 // n` for
      `c < m`, the job left at progress `m - 1`, and no report of 100. */
  lemma LoneJobAbandoned(w: int, n: nat, m: nat, fmt: Option<(int, int) -> string>, every: int, cb: Callback)
    requires w >= 1 && 1 <= m <= n && (fmt.None? || every != 0)
    requires forall p, q :: cb(p, q)
    ensures var r := IterAbandoned(Lone(w), 0, n, m, fmt, every, cb);
      && r.error.None?
      && r.nodes == [Node(Flat(w, m - 1, n), None)]
      && |r.reports| == m
      && (forall c :: 0 <= c < m ==> r.reports[c].percent == c * 100 / n)
      && (forall c :: 0 <= c < m ==> r.reports[c].percent < 100)
  {
    var desc := if fmt.Some? then fmt.value(0, n) else "";
    var started := Run([Node(Flat(w, 0, n), None)], [Delivery(0, desc)], None);
    AbandonedFromStart(w, n, m, fmt, every, cb);
    IterLoopFlat(started, w, 0, m - 1, n, desc, fmt, every, cb);
    var r := IterAbandoned(Lone(w), 0, n, m, fmt, every, cb);
    AbandonedPercents(r.reports, started.reports, m, n);
  }

  /** A lone job's abandoned iteration is its loop run from the start report. */
  lemma AbandonedFromStart(w: int, n: nat, m: nat, fmt: Option<(int, int) -> string>, every: int, cb: Callback)
    requires w >= 1 && 1 <= m <= n
    requires forall p, q :: cb(p, q)
    ensures var desc := if fmt.Some? then fmt.value(0, n) else "";
      IterAbandoned(Lone(w), 0, n, m, fmt, every, cb)
        == IterLoop(Run([Node(Flat(w, 0, n), None)], [Delivery(0, desc)], None), 0, 0, m - 1, n, desc, fmt, every, cb)
  {
    var desc := if fmt.Some? then fmt.value(0, n) else "";
    var t := Lone(w);
    var e := StartJobAt(t, 0, n, desc, cb);
    LoneStart(w, n, desc, cb);
    var started := Then(Run(t, [], None), e);
    assert started.nodes == [Node(Flat(w, 0, n), None)];
    assert started.reports == [] + [Delivery(0, desc)];
    assert started == Run([Node(Flat(w, 0, n), None)], [Delivery(0, desc)], None);
    assert IterAbandoned(t, 0, n, m, fmt, every, cb) == IterLoop(started, 0, 0, m - 1, n, desc, fmt, every, cb);
  }

  /** The start report 0 followed by the reports of elements `1 .. m - 1`
      are the percentages `c * 100 // n` for `c < m`, all below 100. */
  lemma AbandonedPercents(rs: seq<Delivery>, first: seq<Delivery>, m: nat, n: nat)
    requires 1 <= m <= n && |first| == 1 && first[0].percent == 0
    requires first <= rs && PercentsFrom(rs, 1, 0, m - 1, n)
    ensures |rs| == m
    ensures forall c :: 0 <= c < m ==> rs[c].percent == c * 100 / n
    ensures forall c :: 0 <= c < m ==> rs[c].percent < 100
  {
    assert rs[0] == first[0];
    forall c | 0 <= c < m
      ensures rs[c].percent == c * 100 / n < 100
    {
      if c > 0 {
        assert 1 + (c - 0 - 1) == c;
      }
      assert c * 100 < n * 100;
    }
  }

  /** `Job(1)` is the lone job of weight 1. */
  lemma LoneRoot()
    ensures NewRoot(Count(1)) == Lone(1)
  {
    SingleChildJob();
  }

  /** Five elements report 0, 20, 40, 60, 80 and 100, and the closing call 100 again. */
  lemma FiveElements(w: int, n: nat, fmt: Option<(int, int) -> string>, every: int, cb: Callback)
    requires w >= 1 && n == 5
    requires fmt.None? || every != 0
    requires forall p, q :: cb(p, q)
    ensures var r := IterWithProgress(Lone(w), 0, n, fmt, every, cb);
      && r.error.None? && |r.reports| == 7
      && r.reports[0].percent == 0 && r.reports[1].percent == 20 && r.reports[2].percent == 40
      && r.reports[3].percent == 60 && r.reports[4].percent == 80 && r.reports[5].percent == 100
      && r.reports[6].percent == 100
  {
    LoneJobIteration(w, n, fmt, every, cb);
    FiveArithmetic(IterWithProgress(Lone(w), 0, n, fmt, every, cb).reports, n);
  }

  lemma FiveArithmetic(ds: seq<Delivery>, n: int)
    requires n == 5 && |ds| == n + 2
    requires forall c :: 0 <= c <= n ==> ds[c].percent == c * 100 / n
    requires ds[n + 1].percent == Min(100, n) * 100 / n
    ensures ds[0].percent == 0 && ds[1].percent == 20 && ds[2].percent == 40
    ensures ds[3].percent == 60 && ds[4].percent == 80 && ds[5].percent == 100
    ensures ds[6].percent == 100
  {
    assert ds[0].percent == 0 * 100 / n && ds[1].percent == 1 * 100 / n && ds[2].percent == 2 * 100 / n;
    assert ds[3].percent == 3 * 100 / n && ds[4].percent == 4 * 100 / n && ds[5].percent == 5 * 100 / n;
  }

  /** With more than 100 elements the report reaches 100 on the last
      element and then drops below 100 when `set_progress(100)` sets only
      part of the job's maximum (to 50 with 200 elements). */
  lemma LoneJobDropsAtEnd(w: int, n: nat, fmt: Option<(int, int) -> string>, every: int, cb: Callback)
    requires w >= 1 && n > 100
    requires fmt.None? || every != 0
    requires forall p, q :: cb(p, q)
    ensures var r := IterWithProgress(Lone(w), 0, n, fmt, every, cb);
      && r.error.None? && |r.reports| == n + 2
      && r.reports[n].percent == 100
      && r.reports[n + 1].percent == 10000 / n < 100
  {
    LoneJobIteration(w, n, fmt, every, cb);
    DropArithmetic(n);
  }

  lemma DropArithmetic(n: int)
    requires n > 100
    ensures n * 100 / n == 100 && Min(100, n) * 100 / n == 10000 / n < 100
  {
    DivUnique(n * 100, n, 100);
    var q := 10000 / n;
    assert q * n <= 10000;
    if q >= 100 {
      MulLeft(100, q, n);
    }
  }
}
