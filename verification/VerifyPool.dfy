/** The worker pool of the `verify` command: workers claim files through an
    atomic counter and push report lines under a lock (src/main.rs). */
module VerifyPool {
  import opened Wrappers
  import opened Manifests
  import opened Text

  /** What checking a file finds: no record, or which of its blocks decode. */
  datatype Check = NoRecord | Blocks(ok: seq<bool>)

  datatype Line = NoRecordLine | FailLine(block: nat)

  type Report = seq<(nat, Line)>

  /** The files of a version, in tree order, with what checking each finds. */
  datatype Job = Job(nodes: seq<nat>, checks: seq<Check>) {
    ghost predicate Valid() {
      |nodes| == |checks| && forall i, j :: 0 <= i < j < |nodes| ==> nodes[i] < nodes[j]
    }
  }

  /** The nodes that are not directories. */
  function FileNodes(nodes: seq<Node>): (r: seq<nat>)
    ensures forall i :: i in r <==> 0 <= i < |nodes| && !nodes[i].IsDir()
    ensures forall i, j :: 0 <= i < j < |r| ==> r[i] < r[j]
  {
    if nodes == [] then []
    else
      var last := |nodes| - 1;
      var before := FileNodes(nodes[..last]);
      assert forall k :: 0 <= k < |before| ==> before[k] in before;
      before + if nodes[last].IsDir() then [] else [last]
  }

  // ---- one file, checked alone -------------------------------------------

  /** The line a file gets from block `b` on: its first failing block. */
  function LineFrom(ok: seq<bool>, b: nat): Option<Line>
    decreases |ok| - b
  {
    if b >= |ok| then None else if !ok[b] then Some(FailLine(b)) else LineFrom(ok, b + 1)
  }

  function LineOf(c: Check): Option<Line> {
    match c
    case NoRecord => Some(NoRecordLine)
    case Blocks(ok) => LineFrom(ok, 0)
  }

  /** Blocks read from block `b` on: up to and including the first failure. */
  function CostFrom(ok: seq<bool>, b: nat): nat
    decreases |ok| - b
  {
    if b >= |ok| then 0 else if !ok[b] then 1 else 1 + CostFrom(ok, b + 1)
  }

  function CostOf(c: Check): nat {
    match c
    case NoRecord => 0
    case Blocks(ok) => CostFrom(ok, 0)
  }

  /** The sequential report of files `i` and on. */
  function Expected(job: Job, i: nat): Report
    requires |job.nodes| == |job.checks|
    decreases |job.nodes| - i
  {
    if i >= |job.nodes| then []
    else
      (match LineOf(job.checks[i]) case None => [] case Some(l) => [(job.nodes[i], l)]) + Expected(job, i + 1)
  }

  function Cost(job: Job, i: nat): nat
    decreases |job.checks| - i
  {
    if i >= |job.checks| then 0 else CostOf(job.checks[i]) + Cost(job, i + 1)
  }

  // ---- the pool ----------------------------------------------------------

  datatype Worker = Idle | Checking(file: nat, block: nat) | Reporting(reported: nat, line: Line) | Done

  /** `claims` records what the counter handed out. */
  datatype Pool = Pool(next: nat, claims: seq<nat>, blocks: nat, report: Report, workers: seq<Worker>)

  function Start(jobs: nat): Pool {
    Pool(0, [], 0, [], seq(Max(jobs, 1), _ => Idle))
  }

  /** One atomic action of worker `w`. */
  function Step(job: Job, s: Pool, w: nat): Pool
    requires job.Valid() && w < |s.workers|
  {
    match s.workers[w]
    case Done => s
    case Idle =>
      var i := s.next;
      if i >= |job.nodes| then s.(next := i + 1, workers := s.workers[w := Done])
      else
        var now := if job.checks[i].NoRecord? then Reporting(i, NoRecordLine) else Checking(i, 0);
        s.(next := i + 1, claims := s.claims + [i], workers := s.workers[w := now])
    case Checking(i, b) =>
      if i >= |job.checks| || job.checks[i].NoRecord? || b >= |job.checks[i].ok| then s.(workers := s.workers[w := Idle])
      else
        s.(blocks := s.blocks + 1,
           workers := s.workers[w := if job.checks[i].ok[b] then Checking(i, b + 1) else Reporting(i, FailLine(b))])
    case Reporting(i, l) =>
      if i >= |job.nodes| then s.(workers := s.workers[w := Idle])
      else s.(report := s.report + [(job.nodes[i], l)], workers := s.workers[w := Idle])
  }

  // ---- what is conserved -------------------------------------------------

  /** Whether a worker still owes the report line `e`. */
  function Owes(job: Job, e: (nat, Line)): Worker -> nat {
    (w: Worker) =>
      match w
      case Reporting(i, l) => if i < |job.nodes| && e == (job.nodes[i], l) then 1 else 0
      case Checking(i, b) =>
        if i < |job.nodes| && i < |job.checks| && job.checks[i].Blocks? && e.0 == job.nodes[i]
           && LineFrom(job.checks[i].ok, b) == Some(e.1) then 1 else 0
      case _ => 0
  }

  ghost function Count(r: Report, e: (nat, Line)): nat {
    multiset(r)[e]
  }

  ghost function Sum(ws: seq<Worker>, f: Worker -> nat): nat {
    if ws == [] then 0 else f(ws[0]) + Sum(ws[1..], f)
  }

  /** Blocks a worker has yet to read for its file. */
  function ToRead(job: Job): Worker -> nat {
    (w: Worker) =>
      if w.Checking? && w.file < |job.checks| && job.checks[w.file].Blocks? then CostFrom(job.checks[w.file].ok, w.block) else 0
  }

  /** Steps a worker can still take before its next claim, and a little more. */
  function Weight(job: Job): Worker -> nat {
    (w: Worker) =>
      match w
      case Done => 0
      case Idle => 1
      case Reporting(_, _) => 2
      case Checking(i, b) =>
        if i < |job.checks| && job.checks[i].Blocks? && b < |job.checks[i].ok| then |job.checks[i].ok| - b + 3 else 3
  }

  function Unclaimed(job: Job, i: nat): nat
    decreases |job.checks| - i
  {
    if i >= |job.checks| then 0
    else (if job.checks[i].Blocks? then |job.checks[i].ok| else 0) + 4 + Unclaimed(job, i + 1)
  }

  ghost function Measure(job: Job, s: Pool): nat {
    Sum(s.workers, Weight(job)) + Unclaimed(job, s.next)
  }

  lemma {:induction false} SumUpdate(ws: seq<Worker>, f: Worker -> nat, w: nat, x: Worker)
    requires w < |ws|
    ensures Sum(ws[w := x], f) + f(ws[w]) == Sum(ws, f) + f(x)
  {
    if w == 0 {
      assert ws[0 := x][1..] == ws[1..];
    } else {
      assert ws[w := x][1..] == ws[1..][w - 1 := x];
      SumUpdate(ws[1..], f, w - 1, x);
    }
  }

  ghost function Lines(job: Job, s: Pool, e: (nat, Line)): nat
    requires job.Valid()
  {
    Count(s.report, e) + Sum(s.workers, Owes(job, e)) + Count(Expected(job, s.next), e)
  }

  /** Every line is in the report, owed by a worker, or still to be claimed;
      every block read or to read; and files are claimed in order. */
  ghost predicate Inv(job: Job, s: Pool)
    requires job.Valid()
  {
    && (forall e :: Lines(job, s, e) == Count(Expected(job, 0), e))
    && s.blocks + Sum(s.workers, ToRead(job)) + Cost(job, s.next) == Cost(job, 0)
    && |s.claims| == Min(s.next, |job.nodes|) && (forall k :: 0 <= k < |s.claims| ==> s.claims[k] == k)
  }

  lemma ExpectedNext(job: Job, i: nat, e: (nat, Line))
    requires job.Valid() && i < |job.nodes|
    ensures Count(Expected(job, i), e) ==
      Count(Expected(job, i + 1), e) + if e.0 == job.nodes[i] && LineOf(job.checks[i]) == Some(e.1) then 1 else 0
  {
    var rest := Expected(job, i + 1);
    match LineOf(job.checks[i])
    case None =>
      assert Expected(job, i) == [] + rest == rest;
    case Some(l) =>
      assert Expected(job, i) == [(job.nodes[i], l)] + rest;
  }

  lemma CountSnoc(r: Report, x: (nat, Line), e: (nat, Line))
    ensures Count(r + [x], e) == Count(r, e) + if e == x then 1 else 0
  {
  }

  lemma StepTrades(job: Job, s: Pool, w: nat, e: (nat, Line))
    requires job.Valid() && w < |s.workers|
    ensures var s' := Step(job, s, w);
      Count(s'.report, e) + Owes(job, e)(s'.workers[w]) + Count(Expected(job, s'.next), e)
      == Count(s.report, e) + Owes(job, e)(s.workers[w]) + Count(Expected(job, s.next), e)
  {
    hide Expected, Count;
    match s.workers[w]
    case Idle =>
      if s.next < |job.nodes| {
        ExpectedNext(job, s.next, e);
      } else {
        ExpectedEnd(job, s.next);
      }
    case Reporting(i, l) =>
      if i < |job.nodes| {
        CountSnoc(s.report, (job.nodes[i], l), e);
      }
    case _ =>
  }

  lemma StepUpdates(job: Job, s: Pool, w: nat)
    requires job.Valid() && w < |s.workers|
    ensures var s' := Step(job, s, w); |s'.workers| == |s.workers| && s'.workers == s.workers[w := s'.workers[w]]
  {
  }

  lemma StepKeepsLines(job: Job, s: Pool, w: nat, e: (nat, Line))
    requires job.Valid() && w < |s.workers|
    ensures Lines(job, Step(job, s, w), e) == Lines(job, s, e)
  {
    hide Sum, Expected, Step, Count;
    StepUpdates(job, s, w);
    StepTrades(job, s, w, e);
    SumUpdate(s.workers, Owes(job, e), w, Step(job, s, w).workers[w]);
  }

  lemma StepKeepsBlocks(job: Job, s: Pool, w: nat)
    requires job.Valid() && w < |s.workers|
    ensures var s' := Step(job, s, w);
      s'.blocks + Sum(s'.workers, ToRead(job)) + Cost(job, s'.next) == s.blocks + Sum(s.workers, ToRead(job)) + Cost(job, s.next)
  {
    hide Sum;
    StepUpdates(job, s, w);
    SumUpdate(s.workers, ToRead(job), w, Step(job, s, w).workers[w]);
  }

  lemma StepKeepsInv(job: Job, s: Pool, w: nat)
    requires job.Valid() && Inv(job, s) && w < |s.workers|
    ensures Inv(job, Step(job, s, w))
  {
    hide Sum, Expected, Cost, Lines;
    forall e ensures Lines(job, Step(job, s, w), e) == Lines(job, s, e) {
      StepKeepsLines(job, s, w, e);
    }
    StepKeepsBlocks(job, s, w);
  }

  lemma ExpectedEnd(job: Job, i: nat)
    requires job.Valid() && i >= |job.nodes|
    ensures Expected(job, i) == [] && Expected(job, i + 1) == []
  {
  }

  lemma StepMakesProgress(job: Job, s: Pool, w: nat)
    requires job.Valid() && w < |s.workers| && !s.workers[w].Done?
    ensures Measure(job, Step(job, s, w)) < Measure(job, s)
  {
    var s' := Step(job, s, w);
    hide Sum;
    var x := s'.workers[w];
    assert s.workers[w := x] == s'.workers;
    SumUpdate(s.workers, Weight(job), w, x);
  }

  // ---- whole runs --------------------------------------------------------

  ghost predicate Schedule(jobs: nat, ws: seq<nat>) {
    forall k :: 0 <= k < |ws| ==> ws[k] < Max(jobs, 1)
  }

  ghost function Run(job: Job, jobs: nat, ws: seq<nat>): (s: Pool)
    requires job.Valid() && Schedule(jobs, ws)
    ensures |s.workers| == Max(jobs, 1)
  {
    if ws == [] then Start(jobs) else Step(job, Run(job, jobs, ws[..|ws| - 1]), ws[|ws| - 1])
  }

  ghost predicate Finished(s: Pool) {
    forall w :: 0 <= w < |s.workers| ==> s.workers[w].Done?
  }

  lemma {:induction false} StartOwesNothing(job: Job, ws: seq<Worker>)
    requires forall w :: 0 <= w < |ws| ==> ws[w].Idle? || ws[w].Done?
    ensures Sum(ws, ToRead(job)) == 0 && forall e :: Sum(ws, Owes(job, e)) == 0
  {
    if ws != [] {
      StartOwesNothing(job, ws[1..]);
    }
  }

  lemma StartIsInv(job: Job, jobs: nat)
    requires job.Valid()
    ensures Inv(job, Start(jobs))
  {
    StartOwesNothing(job, Start(jobs).workers);
  }

  /** A worker is done only once the counter has passed every file. */
  lemma StepClaims(job: Job, s: Pool, w: nat)
    requires job.Valid() && w < |s.workers|
    ensures Step(job, s, w).next >= s.next
    ensures Step(job, s, w).workers[w].Done? && !s.workers[w].Done? ==> Step(job, s, w).next >= |job.nodes|
  {
  }

  lemma {:induction false} RunKeepsInv(job: Job, jobs: nat, ws: seq<nat>)
    requires job.Valid() && Schedule(jobs, ws)
    ensures Inv(job, Run(job, jobs, ws))
  {
    hide Inv;
    if ws == [] {
      StartIsInv(job, jobs);
    } else {
      RunKeepsInv(job, jobs, ws[..|ws| - 1]);
      StepKeepsInv(job, Run(job, jobs, ws[..|ws| - 1]), ws[|ws| - 1]);
    }
  }

  /** Once a worker is done the counter has passed every file. */
  lemma {:induction false} DoneMeansClaimed(job: Job, jobs: nat, ws: seq<nat>)
    requires job.Valid() && Schedule(jobs, ws)
    ensures forall w :: 0 <= w < |Run(job, jobs, ws).workers| && Run(job, jobs, ws).workers[w].Done? ==>
                          Run(job, jobs, ws).next >= |job.nodes|
  {
    if ws != [] {
      DoneMeansClaimed(job, jobs, ws[..|ws| - 1]);
      StepClaims(job, Run(job, jobs, ws[..|ws| - 1]), ws[|ws| - 1]);
    }
  }

  // ---- the printed report ------------------------------------------------

  function NodeKey(): ((nat, Line)) -> seq<int> {
    (e: (nat, Line)) => [e.0]
  }

  ghost predicate ByNode(r: Report) {
    forall i, j :: 0 <= i < j < |r| ==> r[i].0 <= r[j].0
  }

  ghost predicate StrictlyByNode(r: Report) {
    forall i, j :: 0 <= i < j < |r| ==> r[i].0 < r[j].0
  }

  lemma {:induction false} ExpectedSorted(job: Job, i: nat)
    requires job.Valid()
    ensures StrictlyByNode(Expected(job, i))
    ensures forall e :: e in Expected(job, i) ==>
      exists k :: i <= k < |job.nodes| && e.0 == job.nodes[k] && LineOf(job.checks[k]) == Some(e.1)
    decreases |job.nodes| - i
  {
    if i < |job.nodes| {
      ExpectedSorted(job, i + 1);
      var rest := Expected(job, i + 1);
      forall j | 0 <= j < |rest| ensures job.nodes[i] < rest[j].0 {
        assert rest[j] in rest;
      }
    }
  }

  lemma SameCounts(xs: Report, ys: Report)
    requires forall e :: Count(xs, e) == Count(ys, e)
    ensures multiset(xs) == multiset(ys)
  {
    forall e ensures multiset(xs)[e] == multiset(ys)[e] {
      assert Count(xs, e) == Count(ys, e);
    }
  }

  lemma SameHead(xs: Report, ys: Report)
    requires ByNode(xs) && StrictlyByNode(ys) && xs != [] && ys != []
    requires xs[0] in ys && ys[0] in xs
    ensures xs[0] == ys[0]
  {
    var i :| 0 <= i < |ys| && ys[i] == xs[0];
    var j :| 0 <= j < |xs| && xs[j] == ys[0];
  }

  lemma SameTail(xs: Report, ys: Report)
    requires xs != [] && ys != [] && xs[0] == ys[0] && multiset(xs) == multiset(ys)
    ensures multiset(xs[1..]) == multiset(ys[1..])
  {
    assert xs == [xs[0]] + xs[1..] && ys == [ys[0]] + ys[1..];
    assert multiset(xs[1..]) == multiset(xs) - multiset{xs[0]};
  }

  /** Only one ordering of a report with distinct nodes is sorted. */
  lemma {:induction false} SortedIsUnique(xs: Report, ys: Report)
    requires ByNode(xs) && StrictlyByNode(ys) && multiset(xs) == multiset(ys)
    ensures xs == ys
  {
    assert |multiset(xs)| == |xs| && |multiset(ys)| == |ys|;
    if xs != [] {
      assert xs[0] in multiset(xs) && ys[0] in multiset(ys);
      SameHead(xs, ys);
      SameTail(xs, ys);
      SortedIsUnique(xs[1..], ys[1..]);
    }
  }

  lemma SortGives(xs: Report, ys: Report)
    requires StrictlyByNode(ys) && multiset(xs) == multiset(ys)
    ensures Sort(xs, NodeKey()) == ys
  {
    var sorted := Sort(xs, NodeKey());
    SortIsSortedPermutation(xs, NodeKey());
    forall i, j | 0 <= i < j < |sorted| ensures sorted[i].0 <= sorted[j].0 {
      assert LexLe(NodeKey()(sorted[i]), NodeKey()(sorted[j]));
      OneKeyOrder(sorted[i].0, sorted[j].0);
    }
    SortedIsUnique(sorted, ys);
  }

  lemma OneKeyOrder(a: nat, b: nat)
    ensures LexLe([a], [b]) <==> a <= b
  {
    assert [a][1..] == [] && [b][1..] == [];
    assert !LexLess([], []);
  }

  lemma FinishedPool(job: Job, s: Pool)
    requires job.Valid() && Inv(job, s) && Finished(s) && s.next >= |job.nodes|
    ensures Sort(s.report, NodeKey()) == Expected(job, 0) && s.blocks == Cost(job, 0)
    ensures |s.report| == |Expected(job, 0)|
    ensures |s.claims| == |job.nodes| && forall k :: 0 <= k < |s.claims| ==> s.claims[k] == k
  {
    StartOwesNothing(job, s.workers);
    ExpectedSorted(job, 0);
    ExpectedEnd(job, s.next);
    forall e ensures Count(s.report, e) == Count(Expected(job, 0), e) {
      assert Lines(job, s, e) == Count(Expected(job, 0), e);
    }
    SameCounts(s.report, Expected(job, 0));
    SortGives(s.report, Expected(job, 0));
    assert |multiset(s.report)| == |s.report|;
  }

  /** For any number of workers and any interleaving that lets them finish:
      each file was claimed exactly once, the sorted report is the sequential
      one with at most one line per file, and the counters agree with it. */
  lemma ReportIgnoresSchedule(job: Job, jobs: nat, ws: seq<nat>)
    requires job.Valid() && Schedule(jobs, ws) && Finished(Run(job, jobs, ws))
    ensures var s := Run(job, jobs, ws);
      && Sort(s.report, NodeKey()) == Expected(job, 0) && |s.report| == |Expected(job, 0)| && s.blocks == Cost(job, 0)
      && s.claims == seq(|job.nodes|, i => i)
  {
    hide Run;
    var s := Run(job, jobs, ws);
    RunKeepsInv(job, jobs, ws);
    DoneMeansClaimed(job, jobs, ws);
    assert s.workers[0].Done?;
    FinishedPool(job, s);
  }

  /** Schedules that only run unfinished workers cannot go on for ever. */
  lemma {:induction false} RunsEnd(job: Job, jobs: nat, ws: seq<nat>)
    requires job.Valid() && Schedule(jobs, ws)
    requires forall k :: 0 <= k < |ws| ==> !Run(job, jobs, ws[..k]).workers[ws[k]].Done?
    ensures |ws| + Measure(job, Run(job, jobs, ws)) <= Measure(job, Start(jobs))
  {
    if ws != [] {
      var before := ws[..|ws| - 1];
      forall k | 0 <= k < |before| ensures !Run(job, jobs, before[..k]).workers[before[k]].Done? {
        assert before[..k] == ws[..k];
      }
      RunsEnd(job, jobs, before);
      StepMakesProgress(job, Run(job, jobs, before), ws[|ws| - 1]);
    }
  }

  // ---- outcomes that are only known as they happen -----------------------

  /** The files with how many blocks each has; none without a record. */
  datatype Plan = Plan(nodes: seq<nat>, sizes: seq<Option<nat>>) {
    ghost predicate Valid() {
      |nodes| == |sizes| && forall i, j :: 0 <= i < j < |nodes| ==> nodes[i] < nodes[j]
    }
  }

  /** The pool, and per file the outcomes of its blocks so far. */
  datatype Watched = Watched(pool: Pool, seen: seq<seq<bool>>)

  /** The outcomes seen, taking what was never read as good. */
  function Filled(seen: seq<bool>, n: nat): (r: seq<bool>)
    ensures |r| == n && forall b :: 0 <= b < n && b < |seen| ==> r[b] == seen[b]
  {
    seq(n, b requires 0 <= b < n => if b < |seen| then seen[b] else true)
  }

  function CheckOf(size: Option<nat>, seen: seq<bool>): Check {
    match size
    case None => NoRecord
    case Some(n) => Blocks(Filled(seen, n))
  }

  /** The job that the outcomes seen amount to. */
  function Known(plan: Plan, seen: seq<seq<bool>>): (job: Job)
    requires |plan.nodes| == |plan.sizes| == |seen|
    ensures |job.checks| == |plan.sizes| && forall i :: 0 <= i < |plan.sizes| ==> job.checks[i] == CheckOf(plan.sizes[i], seen[i])
  {
    Job(plan.nodes, seq(|seen|, i requires 0 <= i < |seen| => CheckOf(plan.sizes[i], seen[i])))
  }

  /** Worker `w` is about to read a block. */
  predicate Reads(plan: Plan, s: Watched, w: nat) {
    && w < |s.pool.workers| && s.pool.workers[w].Checking?
    && var i := s.pool.workers[w].file;
       i < |plan.sizes| && i < |s.seen| && plan.sizes[i].Some? && s.pool.workers[w].block < plan.sizes[i].value
  }

  /** One action of worker `w`; if it reads a block, `ok` is how that went. */
  function Watch(plan: Plan, s: Watched, w: nat, ok: bool): Watched
    requires plan.Valid() && |s.seen| == |plan.nodes| && w < |s.pool.workers|
  {
    if Reads(plan, s, w) then
      var Checking(i, b) := s.pool.workers[w];
      var now := if ok then Checking(i, b + 1) else Reporting(i, FailLine(b));
      Watched(s.pool.(blocks := s.pool.blocks + 1, workers := s.pool.workers[w := now]), s.seen[i := s.seen[i] + [ok]])
    else s.(pool := Step(Known(plan, s.seen), s.pool, w))
  }

  ghost predicate WatchSchedule(jobs: nat, ws: seq<(nat, bool)>) {
    forall k :: 0 <= k < |ws| ==> ws[k].0 < Max(jobs, 1)
  }

  function Unseen(n: nat): (r: seq<seq<bool>>)
    ensures |r| == n && forall i :: 0 <= i < n ==> r[i] == []
  {
    seq(n, _ => [])
  }

  ghost function WatchRun(plan: Plan, jobs: nat, ws: seq<(nat, bool)>): (s: Watched)
    requires plan.Valid() && WatchSchedule(jobs, ws)
    ensures |s.seen| == |plan.nodes| && |s.pool.workers| == Max(jobs, 1)
  {
    if ws == [] then Watched(Start(jobs), Unseen(|plan.nodes|))
    else
      var last := ws[|ws| - 1];
      Watch(plan, WatchRun(plan, jobs, ws[..|ws| - 1]), last.0, last.1)
  }

  /** All blocks of the file were read, or all up to one that failed. */
  ghost predicate ReadThrough(size: Option<nat>, seen: seq<bool>) {
    match size
    case None => seen == []
    case Some(n) =>
      && |seen| <= n && (forall b :: 0 <= b < |seen| - 1 ==> seen[b])
      && (|seen| == n || (|seen| > 0 && !seen[|seen| - 1]))
  }

  /** A file some worker is still reading: good so far. */
  ghost predicate InProgress(s: Watched, i: nat) {
    exists w :: 0 <= w < |s.pool.workers| && s.pool.workers[w].Checking? && s.pool.workers[w].file == i
  }

  ghost predicate FilesRead(plan: Plan, s: Watched) {
    && |plan.sizes| == |s.seen|
    && (forall i: nat :: i < |s.seen| && i < s.pool.next && !InProgress(s, i) ==> ReadThrough(plan.sizes[i], s.seen[i]))
    && (forall w :: 0 <= w < |s.pool.workers| && s.pool.workers[w].Checking? ==>
          var i, b := s.pool.workers[w].file, s.pool.workers[w].block;
          i < |s.seen| && plan.sizes[i].Some? && b <= plan.sizes[i].value && |s.seen[i]| == b && forall k :: 0 <= k < b ==> s.seen[i][k])
  }

  /** Nobody shares a file, and its log ends where its worker stands. */
  ghost predicate WatchInv(plan: Plan, s: Watched) {
    && (forall w :: 0 <= w < |s.pool.workers| && s.pool.workers[w].Checking? ==>
          && s.pool.workers[w].file < s.pool.next && s.pool.workers[w].file < |s.seen|
          && |s.seen[s.pool.workers[w].file]| == s.pool.workers[w].block)
    && (forall v, w :: 0 <= v < w < |s.pool.workers| && s.pool.workers[v].Checking? && s.pool.workers[w].Checking? ==>
          s.pool.workers[v].file != s.pool.workers[w].file)
    && (forall i :: s.pool.next <= i < |s.seen| ==> s.seen[i] == [])
  }

  lemma WatchKeepsInv(plan: Plan, s: Watched, w: nat, ok: bool)
    requires plan.Valid() && |s.seen| == |plan.nodes| && w < |s.pool.workers| && WatchInv(plan, s)
    ensures WatchInv(plan, Watch(plan, s, w, ok))
  {
    hide Step, Known;
    if !Reads(plan, s, w) {
      KnownValid(plan, s.seen);
      OtherAction(plan, s, w);
    }
  }

  /** An action that reads no block at most puts its worker on a new file. */
  lemma OtherAction(plan: Plan, s: Watched, w: nat)
    requires plan.Valid() && |s.seen| == |plan.nodes| && w < |s.pool.workers| && !Reads(plan, s, w) && Known(plan, s.seen).Valid()
    ensures var next := Step(Known(plan, s.seen), s.pool, w); var x := if w < |next.workers| then next.workers[w] else Done;
      && next.workers == s.pool.workers[w := x] && next.next >= s.pool.next
      && (x.Checking? ==> x == Checking(s.pool.next, 0) && next.next == s.pool.next + 1 && s.pool.next < |plan.nodes|)
  {
  }

  lemma {:induction false} WatchRunInv(plan: Plan, jobs: nat, ws: seq<(nat, bool)>)
    requires plan.Valid() && WatchSchedule(jobs, ws)
    ensures WatchInv(plan, WatchRun(plan, jobs, ws))
  {
    if ws != [] {
      hide WatchInv, Watch;
      var last := ws[|ws| - 1];
      WatchRunInv(plan, jobs, ws[..|ws| - 1]);
      WatchKeepsInv(plan, WatchRun(plan, jobs, ws[..|ws| - 1]), last.0, last.1);
    }
  }

  /** `final` records at least what `seen` does. */
  ghost predicate Continues(seen: seq<seq<bool>>, final: seq<seq<bool>>) {
    |seen| == |final| && forall i :: 0 <= i < |seen| ==> seen[i] <= final[i]
  }

  /** Any job that records what this action saw makes the same action. */
  lemma WatchAgrees(plan: Plan, s: Watched, w: nat, ok: bool, final: seq<seq<bool>>)
    requires plan.Valid() && |s.seen| == |plan.nodes| && w < |s.pool.workers| && WatchInv(plan, s)
    requires Continues(Watch(plan, s, w, ok).seen, final)
    ensures Step(Known(plan, final), s.pool, w) == Watch(plan, s, w, ok).pool && Continues(s.seen, final)
  {
    if Reads(plan, s, w) {
      var Checking(i, b) := s.pool.workers[w];
      var seen' := Watch(plan, s, w, ok).seen;
      assert seen'[i] == s.seen[i] + [ok] && seen'[i] <= final[i];
      assert final[i][b] == ok;
      forall k | 0 <= k < |s.seen| ensures s.seen[k] <= final[k] {
        assert seen'[k] <= final[k];
      }
    }
  }

  function Workers(ws: seq<(nat, bool)>): (r: seq<nat>)
    ensures |r| == |ws| && forall k :: 0 <= k < |ws| ==> r[k] == ws[k].0
  {
    seq(|ws|, k requires 0 <= k < |ws| => ws[k].0)
  }

  lemma {:induction false} WatchRunAgrees(plan: Plan, jobs: nat, ws: seq<(nat, bool)>, final: seq<seq<bool>>)
    requires plan.Valid() && WatchSchedule(jobs, ws) && Continues(WatchRun(plan, jobs, ws).seen, final)
    ensures Schedule(jobs, Workers(ws)) && Known(plan, final).Valid()
    ensures Run(Known(plan, final), jobs, Workers(ws)) == WatchRun(plan, jobs, ws).pool
  {
    hide WatchInv, Watch, Step, Known, Run, WatchRun;
    KnownValid(plan, final);
    RunLast(Known(plan, final), jobs, Workers(ws));
    WatchRunLast(plan, jobs, ws);
    if ws != [] {
      var before, last := ws[..|ws| - 1], ws[|ws| - 1];
      WatchRunInv(plan, jobs, before);
      WatchAgrees(plan, WatchRun(plan, jobs, before), last.0, last.1, final);
      WatchRunAgrees(plan, jobs, before, final);
      assert Workers(ws)[..|ws| - 1] == Workers(before);
    }
  }

  lemma RunLast(job: Job, jobs: nat, ws: seq<nat>)
    requires job.Valid() && Schedule(jobs, ws)
    ensures ws == [] ==> Run(job, jobs, ws) == Start(jobs)
    ensures ws != [] ==> Run(job, jobs, ws) == Step(job, Run(job, jobs, ws[..|ws| - 1]), ws[|ws| - 1])
  {
    hide Step;
  }

  lemma WatchRunLast(plan: Plan, jobs: nat, ws: seq<(nat, bool)>)
    requires plan.Valid() && WatchSchedule(jobs, ws)
    ensures ws == [] ==> WatchRun(plan, jobs, ws).pool == Start(jobs)
    ensures ws != [] ==>
      WatchRun(plan, jobs, ws) == Watch(plan, WatchRun(plan, jobs, ws[..|ws| - 1]), ws[|ws| - 1].0, ws[|ws| - 1].1)
  {
    hide Watch;
  }

  /** Whatever the reads turn out to be, and whenever: once all workers are
      done, the report, the failures and the block count are those of checking
      the files one after another with the outcomes that were seen. */
  lemma ReportIsOfOutcomes(plan: Plan, jobs: nat, ws: seq<(nat, bool)>)
    requires plan.Valid() && WatchSchedule(jobs, ws) && Finished(WatchRun(plan, jobs, ws).pool)
    ensures var s := WatchRun(plan, jobs, ws); var job := Known(plan, s.seen);
      && Sort(s.pool.report, NodeKey()) == Expected(job, 0) && s.pool.blocks == Cost(job, 0)
      && s.pool.claims == seq(|plan.nodes|, i => i)
  {
    hide WatchRun, Run, Finished, Known, Schedule;
    var s := WatchRun(plan, jobs, ws);
    assert Continues(s.seen, s.seen);
    WatchRunAgrees(plan, jobs, ws, s.seen);
    ReportIgnoresSchedule(Known(plan, s.seen), jobs, Workers(ws));
  }

  ghost function PlanMeasure(plan: Plan, s: Watched): nat
    requires plan.Valid() && |s.seen| == |plan.nodes|
  {
    Measure(Known(plan, s.seen), s.pool)
  }

  lemma {:induction false} UnclaimedSame(plan: Plan, x: seq<seq<bool>>, y: seq<seq<bool>>, i: nat)
    requires plan.Valid() && |x| == |y| == |plan.nodes|
    ensures Unclaimed(Known(plan, x), i) == Unclaimed(Known(plan, y), i)
    decreases |plan.nodes| - i
  {
    if i < |plan.nodes| {
      UnclaimedSame(plan, x, y, i + 1);
    }
  }

  lemma {:induction false} WeightSame(plan: Plan, x: seq<seq<bool>>, y: seq<seq<bool>>, ws: seq<Worker>)
    requires plan.Valid() && |x| == |y| == |plan.nodes|
    ensures Sum(ws, Weight(Known(plan, x))) == Sum(ws, Weight(Known(plan, y)))
  {
    if ws != [] {
      WeightSame(plan, x, y, ws[1..]);
      assert Weight(Known(plan, x))(ws[0]) == Weight(Known(plan, y))(ws[0]);
    }
  }

  lemma WatchMakesProgress(plan: Plan, s: Watched, w: nat, ok: bool)
    requires plan.Valid() && |s.seen| == |plan.nodes| && w < |s.pool.workers| && WatchInv(plan, s)
    requires !s.pool.workers[w].Done?
    ensures PlanMeasure(plan, Watch(plan, s, w, ok)) < PlanMeasure(plan, s)
  {
    hide Step, Known, WatchInv, Weight, Sum, Unclaimed;
    var next := Watch(plan, s, w, ok);
    assert Continues(next.seen, next.seen);
    WatchAgrees(plan, s, w, ok, next.seen);
    KnownValid(plan, next.seen);
    StepMakesProgress(Known(plan, next.seen), s.pool, w);
    UnclaimedSame(plan, s.seen, next.seen, s.pool.next);
    WeightSame(plan, s.seen, next.seen, s.pool.workers);
  }

  lemma KnownValid(plan: Plan, seen: seq<seq<bool>>)
    requires plan.Valid() && |seen| == |plan.nodes|
    ensures Known(plan, seen).Valid()
  {
  }

  // ---- every file is read through ----------------------------------------

  lemma WatchKeepsFiles(plan: Plan, s: Watched, w: nat, ok: bool)
    requires plan.Valid() && |s.seen| == |plan.nodes| && w < |s.pool.workers| && WatchInv(plan, s) && FilesRead(plan, s)
    ensures FilesRead(plan, Watch(plan, s, w, ok))
  {
    if Reads(plan, s, w) {
      ReadKeepsFiles(plan, s, w, ok);
    } else {
      OtherKeepsFiles(plan, s, w, ok);
    }
  }

  lemma ReadKeepsFiles(plan: Plan, s: Watched, w: nat, ok: bool)
    requires plan.Valid() && |s.seen| == |plan.nodes| && Reads(plan, s, w) && WatchInv(plan, s) && FilesRead(plan, s)
    ensures FilesRead(plan, Watch(plan, s, w, ok))
  {
    var s' := Watch(plan, s, w, ok);
    var f := s.pool.workers[w].file;
    assert s'.pool.workers == s.pool.workers[w := s'.pool.workers[w]];
    assert ok ==> s'.pool.workers[w].Checking? && s'.pool.workers[w].file == f;
    assert ok ==> InProgress(s', f);
    forall i: nat | i < |s'.seen| && i < s'.pool.next && !InProgress(s', i) ensures ReadThrough(plan.sizes[i], s'.seen[i]) {
      OthersGoOn(s, s', w, i);
      assert i != f ==> s'.seen[i] == s.seen[i];
    }
  }

  /** What one worker does takes nobody else off a file. */
  lemma OthersGoOn(s: Watched, s': Watched, w: nat, i: nat)
    requires w < |s.pool.workers| == |s'.pool.workers| && s'.pool.workers == s.pool.workers[w := s'.pool.workers[w]]
    ensures InProgress(s, i) ==> InProgress(s', i) || (s.pool.workers[w].Checking? && s.pool.workers[w].file == i)
  {
    if InProgress(s, i) {
      var v :| 0 <= v < |s.pool.workers| && s.pool.workers[v].Checking? && s.pool.workers[v].file == i;
      assert v != w ==> s'.pool.workers[v] == s.pool.workers[v];
    }
  }

  lemma OtherKeepsFiles(plan: Plan, s: Watched, w: nat, ok: bool)
    requires plan.Valid() && |s.seen| == |plan.nodes| && w < |s.pool.workers| && !Reads(plan, s, w) && WatchInv(plan, s) && FilesRead(plan, s)
    ensures FilesRead(plan, Watch(plan, s, w, ok))
  {
    hide Step, Known;
    KnownValid(plan, s.seen);
    OtherAction(plan, s, w);
    ClaimsOne(plan, s, w);
    var s' := Watch(plan, s, w, ok);
    assert s'.pool.workers[w].Checking? ==> InProgress(s', s.pool.next);
    forall i: nat | i < |s'.seen| && i < s'.pool.next && !InProgress(s', i) ensures ReadThrough(plan.sizes[i], s'.seen[i]) {
      OthersGoOn(s, s', w, i);
      assert i >= s.pool.next ==> i == s.pool.next && s.seen[i] == [];
    }
  }

  /** The counter moves by one, past a file without a record or onto one that
      is then read. */
  lemma ClaimsOne(plan: Plan, s: Watched, w: nat)
    requires plan.Valid() && |s.seen| == |plan.nodes| && w < |s.pool.workers| && !Reads(plan, s, w) && Known(plan, s.seen).Valid()
    ensures var next := Step(Known(plan, s.seen), s.pool, w);
      && |next.workers| == |s.pool.workers| && (next.next == s.pool.next || next.next == s.pool.next + 1)
      && (next.next == s.pool.next + 1 ==> s.pool.workers[w].Idle?)
      && (next.next == s.pool.next + 1 && s.pool.next < |plan.nodes| && !next.workers[w].Checking? ==> plan.sizes[s.pool.next].None?)
      && (next.workers[w].Checking? ==> plan.sizes[s.pool.next].Some?)
  {
  }

  lemma {:induction false} WatchRunFiles(plan: Plan, jobs: nat, ws: seq<(nat, bool)>)
    requires plan.Valid() && WatchSchedule(jobs, ws)
    ensures FilesRead(plan, WatchRun(plan, jobs, ws))
  {
    if ws != [] {
      hide WatchInv, Watch, FilesRead;
      var last := ws[|ws| - 1];
      WatchRunInv(plan, jobs, ws[..|ws| - 1]);
      WatchRunFiles(plan, jobs, ws[..|ws| - 1]);
      WatchKeepsFiles(plan, WatchRun(plan, jobs, ws[..|ws| - 1]), last.0, last.1);
    }
  }

  ghost predicate AllReadThrough(plan: Plan, seen: seq<seq<bool>>) {
    |seen| == |plan.sizes| && forall i :: 0 <= i < |seen| ==> ReadThrough(plan.sizes[i], seen[i])
  }

  lemma FinishedReadThrough(plan: Plan, jobs: nat, ws: seq<(nat, bool)>)
    requires plan.Valid() && WatchSchedule(jobs, ws) && Finished(WatchRun(plan, jobs, ws).pool)
    ensures AllReadThrough(plan, WatchRun(plan, jobs, ws).seen)
  {
    hide WatchRun, Run, Known, Schedule;
    var s := WatchRun(plan, jobs, ws);
    WatchRunFiles(plan, jobs, ws);
    assert Continues(s.seen, s.seen);
    WatchRunAgrees(plan, jobs, ws, s.seen);
    DoneMeansClaimed(Known(plan, s.seen), jobs, Workers(ws));
    assert s.pool.workers[0].Done?;
    assert Known(plan, s.seen).nodes == plan.nodes by { KnownNodes(plan, s.seen); }
    forall i: nat | i < |s.seen| ensures ReadThrough(plan.sizes[i], s.seen[i]) {
      assert !InProgress(s, i);
    }
  }

  lemma KnownNodes(plan: Plan, seen: seq<seq<bool>>)
    requires |plan.nodes| == |plan.sizes| == |seen|
    ensures Known(plan, seen).nodes == plan.nodes
  {
  }

  // ---- the command -------------------------------------------------------

  /** How reading block `b` of file `i` goes at the `t`-th action. */
  type Reader = (nat, nat, nat) -> bool

  /** Every outcome is one the reader gave. */
  ghost predicate ReadBy(read: Reader, seen: seq<seq<bool>>) {
    forall i: nat, b: nat :: i < |seen| && b < |seen[i]| ==> GivenBy(read, i, b, seen[i][b])
  }

  ghost predicate GivenBy(read: Reader, i: nat, b: nat, ok: bool) {
    exists t: nat :: read(i, b, t) == ok
  }

  /** Checking one file after another with the outcomes `seen` gives this. */
  ghost predicate ReportOf(plan: Plan, seen: seq<seq<bool>>, lines: Report, blocks: nat) {
    |plan.nodes| == |plan.sizes| == |seen| && lines == Expected(Known(plan, seen), 0) && blocks == Cost(Known(plan, seen), 0)
  }

  /** What the reader gave, block by block until one failed or none is left,
      makes this report. */
  ghost predicate RightReport(plan: Plan, read: Reader, lines: Report, blocks: nat) {
    exists seen :: AllReadThrough(plan, seen) && ReadBy(read, seen) && ReportOf(plan, seen, lines, blocks)
  }

  lemma WatchReadBy(plan: Plan, s: Watched, w: nat, read: Reader, t: nat)
    requires plan.Valid() && |s.seen| == |plan.nodes| && w < |s.pool.workers| && WatchInv(plan, s) && ReadBy(read, s.seen)
    ensures ReadBy(read, Watch(plan, s, w, Outcome(plan, s, w, read, t)).seen)
  {
    if Reads(plan, s, w) {
      var i, b := s.pool.workers[w].file, s.pool.workers[w].block;
      assert GivenBy(read, i, b, read(i, b, t));
      var seen' := Watch(plan, s, w, Outcome(plan, s, w, read, t)).seen;
      forall k: nat, c: nat | k < |seen'| && c < |seen'[k]| ensures GivenBy(read, k, c, seen'[k][c]) {
        if k != i || c < b {
          assert seen'[k][c] == s.seen[k][c];
        }
      }
    }
  }

  /** What the action of worker `w` sees, if it reads a block. */
  function Outcome(plan: Plan, s: Watched, w: nat, read: Reader, t: nat): bool {
    Reads(plan, s, w) && read(s.pool.workers[w].file, s.pool.workers[w].block, t)
  }

  /** The command: workers run in any order until all are done, reading blocks
      as the reader answers; then the lines are sorted and counted. */
  method Verify(plan: Plan, jobs: nat, read: Reader) returns (lines: Report, blocks: nat, failed: nat)
    requires plan.Valid()
    ensures RightReport(plan, read, lines, blocks)
    ensures failed == |lines|
  {
    hide WatchRun, Watch, WatchInv, PlanMeasure, Expected, Cost, ReadBy, AllReadThrough, FilesRead;
    var s := Watched(Start(jobs), Unseen(|plan.nodes|));
    ghost var ws: seq<(nat, bool)> := [];
    WatchRunStart(plan, jobs);
    NothingRead(read, |plan.nodes|);
    var t: nat := 0;
    while exists w :: 0 <= w < |s.pool.workers| && !s.pool.workers[w].Done?
      invariant WatchSchedule(jobs, ws) && s == WatchRun(plan, jobs, ws) && ReadBy(read, s.seen)
      invariant |s.seen| == |plan.nodes| && |s.pool.workers| == Max(jobs, 1)
      decreases PlanMeasure(plan, s)
    {
      var w :| 0 <= w < |s.pool.workers| && !s.pool.workers[w].Done?;
      var ok := Outcome(plan, s, w, read, t);
      WatchRunInv(plan, jobs, ws);
      WatchMakesProgress(plan, s, w, ok);
      WatchReadBy(plan, s, w, read, t);
      WatchRunSnoc(plan, jobs, ws, w, ok);
      s := Watch(plan, s, w, ok);
      ws := ws + [(w, ok)];
      t := t + 1;
    }
    ReportIsOfOutcomes(plan, jobs, ws);
    FinishedReadThrough(plan, jobs, ws);
    SortGivesLength(s.pool.report);
    lines := Sort(s.pool.report, NodeKey());
    blocks, failed := s.pool.blocks, |s.pool.report|;
    assert ReportOf(plan, s.seen, lines, blocks);
  }

  lemma NothingRead(read: Reader, n: nat)
    ensures ReadBy(read, Unseen(n))
  {
  }

  /** The files as a reader that never changes its mind leaves them. */
  function FixedOutcomes(plan: Plan, read: Reader): (r: seq<seq<bool>>)
    requires plan.Valid()
    ensures |r| == |plan.nodes|
  {
    seq(|plan.nodes|, i requires 0 <= i < |plan.sizes| =>
      if plan.sizes[i].None? then [] else seq(plan.sizes[i].value, b requires b >= 0 => read(i, b, 0)))
  }

  lemma {:induction false} SameLine(x: seq<bool>, y: seq<bool>, b: nat, n: nat)
    requires n <= |x| == |y| && b <= n && (forall k :: b <= k < n ==> x[k] == y[k])
    requires n == |x| || (n > 0 && b < n && !x[n - 1])
    ensures LineFrom(x, b) == LineFrom(y, b) && CostFrom(x, b) == CostFrom(y, b)
    decreases |x| - b
  {
    if b < |x| && x[b] {
      SameLine(x, y, b + 1, n);
    }
  }

  lemma {:induction false} SameReport(plan: Plan, x: seq<seq<bool>>, y: seq<seq<bool>>, i: nat)
    requires plan.Valid() && |x| == |y| == |plan.nodes|
    requires forall k :: i <= k < |x| ==> SameCheck(plan.sizes[k], x[k], y[k])
    ensures Expected(Known(plan, x), i) == Expected(Known(plan, y), i) && Cost(Known(plan, x), i) == Cost(Known(plan, y), i)
    decreases |plan.nodes| - i
  {
    if i < |plan.nodes| {
      SameReport(plan, x, y, i + 1);
    }
  }

  ghost predicate SameCheck(size: Option<nat>, x: seq<bool>, y: seq<bool>) {
    LineOf(CheckOf(size, x)) == LineOf(CheckOf(size, y)) && CostOf(CheckOf(size, x)) == CostOf(CheckOf(size, y))
  }

  /** Where reading a block always goes the same way, there is only one right
      report: the one of checking each block of each file. */
  lemma FixedReport(plan: Plan, read: Reader, lines: Report, blocks: nat)
    requires plan.Valid() && RightReport(plan, read, lines, blocks)
    requires forall i: nat, b: nat, t: nat :: read(i, b, t) == read(i, b, 0)
    ensures ReportOf(plan, FixedOutcomes(plan, read), lines, blocks)
  {
    hide Expected, Cost, Known;
    var seen :| AllReadThrough(plan, seen) && ReadBy(read, seen) && ReportOf(plan, seen, lines, blocks);
    var fixed := FixedOutcomes(plan, read);
    forall i | 0 <= i < |seen| ensures SameCheck(plan.sizes[i], seen[i], fixed[i]) {
      forall b: nat | b < |seen[i]| ensures seen[i][b] == read(i, b, 0) {
        assert GivenBy(read, i, b, seen[i][b]);
      }
      SameFile(plan.sizes[i], seen[i], fixed[i]);
    }
    SameReport(plan, seen, fixed, 0);
  }

  lemma SameFile(size: Option<nat>, seen: seq<bool>, fixed: seq<bool>)
    requires ReadThrough(size, seen) && (size.Some? ==> |fixed| == size.value && forall b :: 0 <= b < |seen| ==> seen[b] == fixed[b])
    ensures SameCheck(size, seen, fixed)
  {
    if size.Some? {
      SameLine(Filled(seen, size.value), Filled(fixed, size.value), 0, |seen|);
    }
  }

  lemma WatchRunStart(plan: Plan, jobs: nat)
    requires plan.Valid()
    ensures WatchRun(plan, jobs, []) == Watched(Start(jobs), Unseen(|plan.nodes|))
  {
  }

  lemma WatchRunSnoc(plan: Plan, jobs: nat, ws: seq<(nat, bool)>, w: nat, ok: bool)
    requires plan.Valid() && WatchSchedule(jobs, ws) && w < Max(jobs, 1)
    ensures WatchSchedule(jobs, ws + [(w, ok)])
    ensures WatchRun(plan, jobs, ws + [(w, ok)]) == Watch(plan, WatchRun(plan, jobs, ws), w, ok)
  {
    assert (ws + [(w, ok)])[..|ws|] == ws;
  }

  lemma SortGivesLength(r: Report)
    ensures |Sort(r, NodeKey())| == |r|
  {
    SortIsSortedPermutation(r, NodeKey());
  }
}
