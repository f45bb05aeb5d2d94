/** The workers that share one queue of nodes to check, stop early when the machine runs out of file
    descriptors, and report each verdict to the pool once (src/health.rs). */
module HealthWorkers {
  import opened Prelude
  import opened FailureRecords
  import opened ProxyNodes
  import opened PoolStates
  import opened PoolRuns

  datatype Probe = Passed(delay: nat) | FailedProbe | OutOfDescriptors

  datatype CheckResult = HealthyIn(delay: nat) | UnhealthyNode | ResourceExhausted

  /** Attempt k is the first that does not simply fail, and it gives the result. */
  ghost predicate Decides(probe: nat -> Probe, k: nat, r: CheckResult) {
    && (forall j :: 1 <= j < k ==> probe(j) == FailedProbe)
    && match probe(k)
       case Passed(d) => r == HealthyIn(d)
       case OutOfDescriptors => r == ResourceExhausted
       case FailedProbe => false
  }

  /** Retries one node: the first attempt that does not simply fail decides. */
  method CheckProxyNode(builds: bool, attempts: nat, probe: nat -> Probe) returns (r: CheckResult)
    ensures r == UnhealthyNode <==> !builds || forall k :: 1 <= k <= attempts ==> probe(k) == FailedProbe
    ensures r != UnhealthyNode ==> exists k :: 1 <= k <= attempts && Decides(probe, k, r)
  {
    if !builds {
      return UnhealthyNode;
    }
    for attempt := 1 to attempts + 1
      invariant forall k :: 1 <= k < attempt ==> probe(k) == FailedProbe
    {
      match probe(attempt) {
        case Passed(delay) =>
          assert Decides(probe, attempt, HealthyIn(delay));
          return HealthyIn(delay);
        case OutOfDescriptors =>
          assert Decides(probe, attempt, ResourceExhausted);
          return ResourceExhausted;
        case FailedProbe =>
      }
    }
    r := UnhealthyNode;
  }

  datatype Verdict = Healthy | Unhealthy

  datatype Stats = Stats(checked: nat, recovered: nat, stillDisabled: nat, removed: nat)

  const NO_STATS := Stats(0, 0, 0, 0)

  function Add(a: Stats, b: Stats): Stats {
    Stats(a.checked + b.checked, a.recovered + b.recovered, a.stillDisabled + b.stillDisabled, a.removed + b.removed)
  }

  /** A worker between two of its shared steps: before reading the stop flag, before taking a node,
      busy with a node, or gone. */
  datatype Phase = BeforeFlag | BeforeTake | Checking(node: Key) | Gone

  datatype Worker = Worker(phase: Phase, stats: Stats)

  datatype Round = Round(
    queue: seq<Key>, stop: bool, workers: seq<Worker>, finished: seq<(Key, Verdict)>, dropped: seq<Key>,
    pool: PoolState)

  function VerdictOp(v: (Key, Verdict)): Op {
    if v.1 == Healthy then RecheckSucceeded(v.0) else RecheckFailed(v.0)
  }

  /** How one verdict is counted, given what the pool answers. */
  function Counted(pool: PoolState, v: (Key, Verdict)): Stats {
    if v.1 == Healthy then Stats(1, if IsDisabledKey(pool, v.0) then 1 else 0, 0, 0)
    else match RecheckVerdict(pool, v.0)
         case NotDisabled => Stats(1, 0, 0, 0)
         case StillDisabled(_) => Stats(1, 0, 1, 0)
         case Removed(_) => Stats(1, 0, 0, 1)
  }

  datatype Event = ReadFlag | Take | Finish(verdict: Verdict) | Exhaust

  /** Worker i performs the event; `lib` and `policy` belong to the pool it reports to. */
  ghost predicate Step(lib: Library, policy: Policy, r: Round, next: Round, i: nat, e: Event) {
    && i < |r.workers|
    && var w := r.workers[i];
       match e
       case ReadFlag =>
         w.phase == BeforeFlag
         && next == r.(workers := r.workers[i := w.(phase := if r.stop then Gone else BeforeTake)])
       case Take =>
         w.phase == BeforeTake
         && if r.queue == [] then next == r.(workers := r.workers[i := w.(phase := Gone)])
            else next == r.(queue := r.queue[1..], workers := r.workers[i := w.(phase := Checking(r.queue[0]))])
       case Finish(verdict) =>
         w.phase.Checking?
         && var v := (w.phase.node, verdict);
            next == r.(workers := r.workers[i := Worker(BeforeFlag, Add(w.stats, Counted(r.pool, v)))],
                       finished := r.finished + [v], pool := Apply(lib, policy, r.pool, VerdictOp(v)))
       case Exhaust =>
         w.phase.Checking?
         && next == r.(stop := true, workers := r.workers[i := w.(phase := Gone)],
                       dropped := r.dropped + [w.phase.node])
  }

  function NewWorkers(workers: nat): (ws: seq<Worker>)
    ensures |ws| == workers
    ensures forall i :: 0 <= i < workers ==> ws[i] == Worker(BeforeFlag, NO_STATS)
  {
    seq(workers, _ => Worker(BeforeFlag, NO_STATS))
  }

  function Start(nodes: seq<Key>, workers: nat, pool: PoolState): Round {
    Round(nodes, false, NewWorkers(workers), [], [], pool)
  }

  /** What a round starts from. */
  datatype Setup = Setup(lib: Library, policy: Policy, nodes: seq<Key>, workers: nat, pool: PoolState)

  /** Requests and merges go on while the round is under way. */
  function Meanwhile(c: Setup, r: Round, ops: seq<Op>): Round {
    r.(pool := ApplyAll(c.lib, c.policy, r.pool, ops))
  }

  ghost predicate Follows(c: Setup, r: Round, ops: seq<Op>, next: Round) {
    exists i, e :: Step(c.lib, c.policy, Meanwhile(c, r, ops), next, i, e)
  }

  /** A run of the round; `others[k]` is what others do to the pool before step k. */
  ghost predicate IsRun(c: Setup, run: seq<Round>, others: seq<seq<Op>>) {
    && |run| == |others| + 1 && run[0] == Start(c.nodes, c.workers, c.pool)
    && forall k :: 0 <= k < |others| ==> Follows(c, run[k], others[k], run[k + 1])
  }

  lemma StepOf(c: Setup, run: seq<Round>, others: seq<seq<Op>>, k: nat) returns (i: nat, e: Event)
    requires IsRun(c, run, others) && k < |others|
    ensures Step(c.lib, c.policy, Meanwhile(c, run[k], others[k]), run[k + 1], i, e)
  {
    assert Follows(c, run[k], others[k], run[k + 1]);
    i, e :| Step(c.lib, c.policy, Meanwhile(c, run[k], others[k]), run[k + 1], i, e);
  }

  // ----- every node is in exactly one place -----

  function Holds(w: Worker, node: Key): nat {
    if w.phase == Checking(node) then 1 else 0
  }

  /** How many workers are busy with the node. */
  function InFlight(workers: seq<Worker>, node: Key): nat {
    if workers == [] then 0 else InFlight(workers[..|workers| - 1], node) + Holds(workers[|workers| - 1], node)
  }

  function IfBusy(w: Worker): nat {
    if w.phase.Checking? then 1 else 0
  }

  function BusyCount(workers: seq<Worker>): nat {
    if workers == [] then 0 else BusyCount(workers[..|workers| - 1]) + IfBusy(workers[|workers| - 1])
  }

  function Checked(finished: seq<(Key, Verdict)>): seq<Key> {
    if finished == [] then [] else Checked(finished[..|finished| - 1]) + [finished[|finished| - 1].0]
  }

  function Total(workers: seq<Worker>): Stats {
    if workers == [] then NO_STATS else Add(Total(workers[..|workers| - 1]), workers[|workers| - 1].stats)
  }

  function IfGone(w: Worker): nat {
    if w.phase.Gone? then 1 else 0
  }

  function GoneCount(workers: seq<Worker>): nat {
    if workers == [] then 0 else GoneCount(workers[..|workers| - 1]) + IfGone(workers[|workers| - 1])
  }

  lemma UpdateInit(workers: seq<Worker>, i: nat, w: Worker)
    requires i < |workers|
    ensures var last := |workers| - 1;
      workers[i := w][..last] == if i == last then workers[..last] else workers[..last][i := w]
  {
  }

  /** Changing one worker changes the sums by that worker's share. */
  lemma {:induction false} UpdateInFlight(workers: seq<Worker>, i: nat, w: Worker, node: Key)
    requires i < |workers|
    ensures InFlight(workers[i := w], node) + Holds(workers[i], node) == InFlight(workers, node) + Holds(w, node)
    ensures Holds(workers[i], node) <= InFlight(workers, node)
    decreases |workers|
  {
    UpdateInit(workers, i, w);
    if i < |workers| - 1 {
      UpdateInFlight(workers[..|workers| - 1], i, w, node);
    }
  }

  lemma {:induction false} UpdateCounts(workers: seq<Worker>, i: nat, w: Worker)
    requires i < |workers|
    ensures Add(Total(workers[i := w]), workers[i].stats) == Add(Total(workers), w.stats)
    ensures GoneCount(workers[i := w]) + IfGone(workers[i]) == GoneCount(workers) + IfGone(w)
    ensures BusyCount(workers[i := w]) + IfBusy(workers[i]) == BusyCount(workers) + IfBusy(w)
    decreases |workers|
  {
    UpdateInit(workers, i, w);
    if i < |workers| - 1 {
      UpdateCounts(workers[..|workers| - 1], i, w);
    }
  }

  function Copies(s: seq<Key>, node: Key): nat {
    multiset(s)[node]
  }

  /** Copies of the node outside the workers' hands. */
  function Resting(r: Round, node: Key): nat {
    Copies(r.queue, node) + Copies(Checked(r.finished), node) + Copies(r.dropped, node)
  }

  /** The copies of the node in the queue, with the workers, judged and dropped are those it started with. */
  ghost predicate Placed(r: Round, nodes: seq<Key>, node: Key) {
    Resting(r, node) + InFlight(r.workers, node) == Copies(nodes, node)
  }

  ghost predicate Inv(r: Round, nodes: seq<Key>) {
    && (forall node :: Placed(r, nodes, node))
    && |r.queue| + BusyCount(r.workers) + |r.finished| + |r.dropped| == |nodes|
    && Total(r.workers).checked == |r.finished|
    && |r.dropped| <= GoneCount(r.workers) && (r.stop <==> r.dropped != [])
    && (!r.stop && GoneCount(r.workers) > 0 ==> r.queue == [])
  }

  lemma CheckedAppend(finished: seq<(Key, Verdict)>, v: (Key, Verdict))
    ensures Checked(finished + [v]) == Checked(finished) + [v.0]
  {
    assert (finished + [v])[..|finished|] == finished;
  }

  /** What a worker lets go of comes to rest, and what it takes up was at rest. */
  lemma StepMoves(lib: Library, policy: Policy, r: Round, next: Round, i: nat, e: Event, node: Key)
    requires Step(lib, policy, r, next, i, e)
    ensures Resting(next, node) + Holds(next.workers[i], node) == Resting(r, node) + Holds(r.workers[i], node)
  {
    var w := r.workers[i];
    match e
    case ReadFlag =>
    case Take =>
      if r.queue != [] {
        FirstCopy(r.queue, node);
      }
    case Finish(verdict) =>
      CheckedAppend(r.finished, (w.phase.node, verdict));
      LastCopy(Checked(r.finished), w.phase.node, node);
    case Exhaust => LastCopy(r.dropped, w.phase.node, node);
  }

  lemma StepKeepsPlaced(
      lib: Library, policy: Policy, r: Round, next: Round, i: nat, e: Event, nodes: seq<Key>, node: Key)
    requires Placed(r, nodes, node) && Step(lib, policy, r, next, i, e)
    ensures Placed(next, nodes, node)
  {
    StepMoves(lib, policy, r, next, i, e, node);
    UpdateInFlight(r.workers, i, next.workers[i], node);
    assert next.workers == r.workers[i := next.workers[i]];
  }

  lemma FirstCopy(s: seq<Key>, node: Key)
    requires s != []
    ensures Copies(s, node) == (if s[0] == node then 1 else 0) + Copies(s[1..], node)
  {
    assert s == [s[0]] + s[1..];
  }

  lemma LastCopy(s: seq<Key>, last: Key, node: Key)
    ensures Copies(s + [last], node) == Copies(s, node) + if last == node then 1 else 0
  {
  }

  /** Every step of every worker keeps each node in exactly one place. */
  lemma StepKeepsInv(lib: Library, policy: Policy, r: Round, next: Round, i: nat, e: Event, nodes: seq<Key>)
    requires Inv(r, nodes) && Step(lib, policy, r, next, i, e)
    ensures Inv(next, nodes)
  {
    forall node
      ensures Placed(next, nodes, node)
    {
      StepKeepsPlaced(lib, policy, r, next, i, e, nodes, node);
    }
    UpdateCounts(r.workers, i, next.workers[i]);
    assert next.workers == r.workers[i := next.workers[i]];
  }

  lemma {:induction false} IdleHoldNothing(ws: seq<Worker>, node: Key)
    requires forall i :: 0 <= i < |ws| ==> !ws[i].phase.Checking?
    ensures InFlight(ws, node) == 0 && BusyCount(ws) == 0
  {
    if ws != [] {
      IdleHoldNothing(ws[..|ws| - 1], node);
    }
  }

  lemma {:induction false} StartSums(ws: seq<Worker>)
    requires forall i :: 0 <= i < |ws| ==> ws[i].phase == BeforeFlag && ws[i].stats.checked == 0
    ensures Total(ws).checked == 0 && GoneCount(ws) == 0 && Ranks(ws) == 2 * |ws|
  {
    if ws != [] {
      StartSums(ws[..|ws| - 1]);
    }
  }

  /** Under every interleaving, queued, in-flight, finished and dropped nodes partition the initial list,
      and the workers' counters add up to the verdicts given. */
  lemma {:induction false} AlwaysPartitioned(c: Setup, run: seq<Round>, others: seq<seq<Op>>, k: nat)
    requires IsRun(c, run, others) && k < |run|
    ensures Inv(run[k], c.nodes) && |run[k].workers| == c.workers
  {
    if k == 0 {
      StartSums(run[0].workers);
      IdleHoldNothing(run[0].workers, "");
      forall node
        ensures Placed(run[0], c.nodes, node)
      {
        IdleHoldNothing(run[0].workers, node);
      }
    } else {
      var j := k - 1;
      AlwaysPartitioned(c, run, others, j);
      var i, e := StepOf(c, run, others, j);
      var before := Meanwhile(c, run[j], others[j]);
      assert forall node :: Placed(run[j], c.nodes, node) ==> Placed(before, c.nodes, node);
      StepKeepsInv(c.lib, c.policy, before, run[k], i, e, c.nodes);
    }
  }

  // ----- every run ends -----

  function Rank(p: Phase): nat {
    match p
    case BeforeFlag => 2
    case BeforeTake => 1
    case Checking(_) => 3
    case Gone => 0
  }

  function Ranks(workers: seq<Worker>): nat {
    if workers == [] then 0 else Ranks(workers[..|workers| - 1]) + Rank(workers[|workers| - 1].phase)
  }

  lemma {:induction false} UpdateRank(workers: seq<Worker>, i: nat, w: Worker)
    requires i < |workers|
    ensures Ranks(workers[i := w]) + Rank(workers[i].phase) == Ranks(workers) + Rank(w.phase)
    decreases |workers|
  {
    UpdateInit(workers, i, w);
    if i < |workers| - 1 {
      UpdateRank(workers[..|workers| - 1], i, w);
    }
  }

  function Work(r: Round): nat {
    3 * |r.queue| + Ranks(r.workers)
  }

  lemma StepLowersWork(lib: Library, policy: Policy, r: Round, next: Round, i: nat, e: Event)
    requires Step(lib, policy, r, next, i, e)
    ensures Work(next) < Work(r)
  {
    UpdateRank(r.workers, i, next.workers[i]);
    assert next.workers == r.workers[i := next.workers[i]];
  }

  /** No schedule takes more than 3 steps a node and 2 a worker. */
  lemma {:induction false} RunsAreShort(c: Setup, run: seq<Round>, others: seq<seq<Op>>, k: nat)
    requires IsRun(c, run, others) && k < |run|
    ensures Work(run[k]) + k <= 3 * |c.nodes| + 2 * c.workers
  {
    if k == 0 {
      StartSums(run[0].workers);
    } else {
      var j := k - 1;
      RunsAreShort(c, run, others, j);
      var i, e := StepOf(c, run, others, j);
      StepLowersWork(c.lib, c.policy, Meanwhile(c, run[j], others[j]), run[k], i, e);
    }
  }

  ghost predicate AllGone(r: Round) {
    forall i :: 0 <= i < |r.workers| ==> r.workers[i].phase.Gone?
  }

  /** A worker that is not gone always has a step to take, whatever the others do. */
  lemma WorkerCanStep(lib: Library, policy: Policy, r: Round, i: nat) returns (next: Round, e: Event)
    requires i < |r.workers| && !r.workers[i].phase.Gone?
    ensures Step(lib, policy, r, next, i, e)
  {
    var w := r.workers[i];
    match w.phase
    case BeforeFlag =>
      e := ReadFlag;
      next := r.(workers := r.workers[i := w.(phase := if r.stop then Gone else BeforeTake)]);
    case BeforeTake =>
      e := Take;
      if r.queue == [] {
        next := r.(workers := r.workers[i := w.(phase := Gone)]);
      } else {
        next := r.(queue := r.queue[1..], workers := r.workers[i := w.(phase := Checking(r.queue[0]))]);
      }
    case Checking(node) =>
      e := Exhaust;
      next := r.(stop := true, workers := r.workers[i := w.(phase := Gone)], dropped := r.dropped + [node]);
  }

  lemma RunExtends(c: Setup, run: seq<Round>, others: seq<seq<Op>>, ops: seq<Op>, next: Round, i: nat, e: Event)
    requires IsRun(c, run, others) && Step(c.lib, c.policy, Meanwhile(c, run[|run| - 1], ops), next, i, e)
    ensures IsRun(c, run + [next], others + [ops])
  {
    var longer, more := run + [next], others + [ops];
    forall k | 0 <= k < |more|
      ensures Follows(c, longer[k], more[k], longer[k + 1])
    {
      if k < |others| {
        assert Follows(c, run[k], others[k], run[k + 1]);
      } else {
        assert Step(c.lib, c.policy, Meanwhile(c, longer[k], more[k]), longer[k + 1], i, e);
      }
    }
  }

  /** Every round comes to its end: a run has a bounded number of steps, and unless all its workers are gone it
      can go on, whatever others do to the pool. */
  lemma EveryRoundFinishes(c: Setup, run: seq<Round>, others: seq<seq<Op>>, ops: seq<Op>)
    requires IsRun(c, run, others)
    ensures |others| <= 3 * |c.nodes| + 2 * c.workers
    ensures AllGone(run[|run| - 1]) || exists next :: IsRun(c, run + [next], others + [ops])
  {
    RunsAreShort(c, run, others, |run| - 1);
    var r := Meanwhile(c, run[|run| - 1], ops);
    if i: nat :| i < |r.workers| && !r.workers[i].phase.Gone? {
      var next, e := WorkerCanStep(c.lib, c.policy, r, i);
      RunExtends(c, run, others, ops, next, i, e);
    }
  }

  // ----- after the stop flag is set -----

  /** How far a worker is from leaving once the flag is set. */
  function ToLeave(p: Phase): nat {
    match p
    case BeforeTake => 3
    case Checking(_) => 2
    case BeforeFlag => 1
    case Gone => 0
  }

  function IfReady(w: Worker): nat {
    if w.phase.BeforeTake? then 1 else 0
  }

  /** Workers that have read the flag already and are about to take a node. */
  function ReadyCount(workers: seq<Worker>): nat {
    if workers == [] then 0 else ReadyCount(workers[..|workers| - 1]) + IfReady(workers[|workers| - 1])
  }

  lemma {:induction false} UpdateReady(workers: seq<Worker>, i: nat, w: Worker)
    requires i < |workers|
    ensures ReadyCount(workers[i := w]) + IfReady(workers[i]) == ReadyCount(workers) + IfReady(w)
    decreases |workers|
  {
    UpdateInit(workers, i, w);
    if i < |workers| - 1 {
      UpdateReady(workers[..|workers| - 1], i, w);
    }
  }

  lemma StopStep(lib: Library, policy: Policy, r: Round, next: Round, i: nat, e: Event)
    requires Step(lib, policy, r, next, i, e) && r.stop
    ensures next.stop && |next.workers| == |r.workers|
    ensures forall j :: 0 <= j < |r.workers| ==> ToLeave(next.workers[j].phase) <= ToLeave(r.workers[j].phase)
    ensures ToLeave(next.workers[i].phase) < ToLeave(r.workers[i].phase)
    ensures |r.queue| + ReadyCount(next.workers) <= |next.queue| + ReadyCount(r.workers)
  {
    UpdateReady(r.workers, i, next.workers[i]);
    assert next.workers == r.workers[i := next.workers[i]];
  }

  /** Once the stop flag is set no worker goes back to take a node: one that had read the flag before takes at
      most one more, all others none, and every step brings its worker nearer to leaving. */
  lemma {:induction false} StopIsFinal(c: Setup, run: seq<Round>, others: seq<seq<Op>>, k: nat, j: nat)
    requires IsRun(c, run, others) && k <= j < |run| && run[k].stop
    ensures run[j].stop && |run[j].workers| == |run[k].workers|
    ensures forall i :: 0 <= i < |run[k].workers| ==>
      ToLeave(run[j].workers[i].phase) <= ToLeave(run[k].workers[i].phase)
    ensures |run[k].queue| + ReadyCount(run[j].workers) <= |run[j].queue| + ReadyCount(run[k].workers)
  {
    if k < j {
      var h := j - 1;
      StopIsFinal(c, run, others, k, h);
      var i, e := StepOf(c, run, others, h);
      StopStep(c.lib, c.policy, Meanwhile(c, run[h], others[h]), run[j], i, e);
    }
  }

  lemma {:induction false} AllGoneCounted(workers: seq<Worker>)
    requires forall i :: 0 <= i < |workers| ==> workers[i].phase.Gone?
    ensures GoneCount(workers) == |workers|
  {
    if workers != [] {
      AllGoneCounted(workers[..|workers| - 1]);
    }
  }

  /** When all workers are gone: without exhaustion every node got exactly one verdict; in any case the
      nodes without a verdict are those dropped, at most one a worker, and those left in the queue. */
  lemma RoundEnds(c: Setup, run: seq<Round>, others: seq<seq<Op>>)
    requires IsRun(c, run, others) && c.workers > 0 && AllGone(run[|run| - 1])
    ensures var r := run[|run| - 1];
      && (!r.stop ==> multiset(Checked(r.finished)) == multiset(c.nodes))
      && (forall node :: Resting(r, node) == Copies(c.nodes, node))
      && |r.dropped| <= c.workers
      && Total(r.workers).checked + |r.dropped| + |r.queue| == |c.nodes|
  {
    var r := run[|run| - 1];
    AlwaysPartitioned(c, run, others, |run| - 1);
    AllGoneCounted(r.workers);
    IdleHoldNothing(r.workers, "");
    forall node
      ensures Resting(r, node) == Copies(c.nodes, node)
    {
      IdleHoldNothing(r.workers, node);
      assert Placed(r, c.nodes, node);
    }
    if !r.stop {
      forall node
        ensures multiset(Checked(r.finished))[node] == multiset(c.nodes)[node]
      {
        assert Resting(r, node) == Copies(c.nodes, node);
      }
    }
  }

  // ----- what the round does to the pool -----

  predicate Untouched(s: PoolState, t: PoolState, key: Key) {
    Lookup(s, key) == Lookup(t, key) && (key in Keys(s.proxies) <==> key in Keys(t.proxies))
    && (KeyHash(key) in s.retired <==> KeyHash(key) in t.retired)
  }

  lemma OtherVerdict(lib: Library, policy: Policy, s: PoolState, v: (Key, Verdict), key: Key)
    requires v.0 != key
    ensures Untouched(s, Apply(lib, policy, s, VerdictOp(v)), key)
  {
    WithoutMembers(s.proxies, v.0);
    if e :| e in s.proxies && e.key == key {
      assert v.1 == Unhealthy && RecheckVerdict(s, v.0).Removed? ==> e in Without(s.proxies, v.0);
    }
  }

  /** A verdict on a key that is not disabled any more, or never was, changes nothing: neither its record nor
      anything else. */
  lemma VerdictNeedsDisabled(lib: Library, policy: Policy, s: PoolState, v: (Key, Verdict))
    ensures Apply(lib, policy, s, VerdictOp(v)) == s || IsDisabledKey(s, v.0)
  {
  }

  /** An active, disabled key with its number of failed rechecks. */
  predicate OnTrial(s: PoolState, key: Key, count: nat) {
    key in Keys(s.proxies) && AwaitsRecheck(s, key, count)
  }

  lemma OwnVerdict(lib: Library, policy: Policy, s: PoolState, v: (Key, Verdict), count: nat)
    requires OnTrial(s, v.0, count)
    ensures var t := Apply(lib, policy, s, VerdictOp(v));
      if v.1 == Healthy then v.0 in Keys(t.proxies) && v.0 !in t.failures
      else if count + 1 < RECHECK_LIMIT then OnTrial(t, v.0, count + 1)
      else KeyHash(v.0) in t.retired && v.0 !in Keys(t.proxies)
  {
    WithoutMembers(s.proxies, v.0);
  }

  /** A disabled key after its only verdict, if it got one. */
  ghost predicate Judged(s: PoolState, key: Key, count: nat, finished: seq<(Key, Verdict)>) {
    if (key, Healthy) in finished then key in Keys(s.proxies) && key !in s.failures
    else if (key, Unhealthy) in finished then
      if count + 1 < RECHECK_LIMIT then OnTrial(s, key, count + 1)
      else KeyHash(key) in s.retired && key !in Keys(s.proxies)
    else OnTrial(s, key, count)
  }

  /** Operations of others that do not report on the key and do not replace the pool. */
  predicate LeavesAlone(op: Op, key: Key) {
    match op
    case Merging(_) => true
    case Scanned(_, _) => true
    case Replacing(_) => false
    case Succeeded(k) => k != key
    case Failing(k, _) => k != key
    case RecheckSucceeded(k) => k != key
    case RecheckFailed(k) => k != key
  }

  lemma OtherOp(lib: Library, policy: Policy, s: PoolState, op: Op, key: Key, count: nat, finished: seq<(Key, Verdict)>)
    requires Judged(s, key, count, finished) && LeavesAlone(op, key)
    ensures Judged(Apply(lib, policy, s, op), key, count, finished)
  {
    match op
    case Merging(nodes) =>
      MergeRecord(policy, s, Entries(lib, nodes), key);
      FreshKeys(Keys(s.proxies), s.retired, Entries(lib, nodes));
    case RecheckSucceeded(k) => OtherVerdict(lib, policy, s, (k, Healthy), key);
    case RecheckFailed(k) => OtherVerdict(lib, policy, s, (k, Unhealthy), key);
    case _ =>
  }

  lemma {:induction false} OtherOps(
      lib: Library, policy: Policy, s: PoolState, ops: seq<Op>, key: Key, count: nat, finished: seq<(Key, Verdict)>)
    requires Judged(s, key, count, finished) && forall op :: op in ops ==> LeavesAlone(op, key)
    ensures Judged(ApplyAll(lib, policy, s, ops), key, count, finished)
  {
    if ops != [] {
      var init := ops[..|ops| - 1];
      assert ops[|ops| - 1] in ops && forall op :: op in init ==> op in ops;
      OtherOps(lib, policy, s, init, key, count, finished);
      OtherOp(lib, policy, ApplyAll(lib, policy, s, init), ops[|ops| - 1], key, count, finished);
    }
  }

  /** Nobody but the round reports on the key. */
  ghost predicate LeftAlone(others: seq<seq<Op>>, key: Key) {
    forall k, op :: 0 <= k < |others| && op in others[k] ==> LeavesAlone(op, key)
  }

  lemma {:induction false} InChecked(finished: seq<(Key, Verdict)>, v: (Key, Verdict))
    requires v in finished
    ensures Copies(Checked(finished), v.0) > 0
  {
    if v != finished[|finished| - 1] {
      InChecked(finished[..|finished| - 1], v);
    }
  }

  /** While a node is being checked it has no verdict yet. */
  lemma InFlightUnjudged(r: Round, nodes: seq<Key>, i: nat, v: Verdict)
    requires Inv(r, nodes) && i < |r.workers| && r.workers[i].phase.Checking?
    requires Copies(nodes, r.workers[i].phase.node) <= 1
    ensures (r.workers[i].phase.node, v) !in r.finished
  {
    var key := r.workers[i].phase.node;
    UpdateInFlight(r.workers, i, r.workers[i], key);
    assert Placed(r, nodes, key);
    if (key, v) in r.finished {
      InChecked(r.finished, (key, v));
    }
  }

  lemma StepJudged(
      lib: Library, policy: Policy, r: Round, next: Round, i: nat, e: Event, nodes: seq<Key>, key: Key, count: nat)
    requires Inv(r, nodes) && Step(lib, policy, r, next, i, e)
    requires Copies(nodes, key) <= 1 && Judged(r.pool, key, count, r.finished)
    ensures Judged(next.pool, key, count, next.finished)
  {
    if e.Finish? {
      var v := (r.workers[i].phase.node, e.verdict);
      assert (key, Healthy) in next.finished <==> (key, Healthy) in r.finished || v == (key, Healthy);
      assert (key, Unhealthy) in next.finished <==> (key, Unhealthy) in r.finished || v == (key, Unhealthy);
      if v.0 != key {
        OtherVerdict(lib, policy, r.pool, v, key);
      } else {
        InFlightUnjudged(r, nodes, i, Healthy);
        InFlightUnjudged(r, nodes, i, Unhealthy);
        OwnVerdict(lib, policy, r.pool, v, count);
      }
    }
  }

  /** At every point of every round over different keys, with requests and merges going on, a disabled key on
      which nobody else reports and that was checked healthy is active and clean, one that was checked unhealthy
      has one more failed recheck or is retired, and one that is queued, in flight, dropped, or left behind by
      the stop flag keeps its count. */
  lemma {:induction false} RoundVerdicts(
      c: Setup, run: seq<Round>, others: seq<seq<Op>>, k: nat, key: Key, count: nat)
    requires IsRun(c, run, others) && k < |run| && LeftAlone(others, key)
    requires Copies(c.nodes, key) <= 1 && OnTrial(c.pool, key, count)
    ensures Judged(run[k].pool, key, count, run[k].finished)
  {
    if k > 0 {
      var j := k - 1;
      RoundVerdicts(c, run, others, j, key, count);
      StillJudged(c, run, others, j, key, count);
      AlwaysPartitioned(c, run, others, j);
      var before := Meanwhile(c, run[j], others[j]);
      assert forall node :: Placed(run[j], c.nodes, node) ==> Placed(before, c.nodes, node);
      var i, e := StepOf(c, run, others, j);
      StepJudged(c.lib, c.policy, before, run[k], i, e, c.nodes, key, count);
    }
  }

  /** What others do before a step does not concern the key. */
  lemma StillJudged(c: Setup, run: seq<Round>, others: seq<seq<Op>>, k: nat, key: Key, count: nat)
    requires k < |others| <= |run| && LeftAlone(others, key) && Judged(run[k].pool, key, count, run[k].finished)
    ensures var r := Meanwhile(c, run[k], others[k]); Judged(r.pool, key, count, r.finished)
  {
    OtherOps(c.lib, c.policy, run[k].pool, others[k], key, count, run[k].finished);
  }

  // ----- what the counters mean -----

  /** The tally of verdicts had each been given to the pool as it was when the round began. */
  function Tally(pool: PoolState, finished: seq<(Key, Verdict)>): Stats {
    if finished == [] then NO_STATS
    else Add(Tally(pool, finished[..|finished| - 1]), Counted(pool, finished[|finished| - 1]))
  }

  /** Active, disabled keys, each of them listed once. */
  ghost predicate DisabledOnce(pool: PoolState, nodes: seq<Key>) {
    forall node :: node in nodes ==> Copies(nodes, node) == 1 && node in Keys(pool.proxies) && IsDisabledKey(pool, node)
  }

  lemma {:induction false} DistinctOnce(nodes: seq<Key>, node: Key)
    requires Distinct(nodes) && node in nodes
    ensures Copies(nodes, node) == 1
  {
    var init, last := nodes[..|nodes| - 1], nodes[|nodes| - 1];
    assert nodes == init + [last];
    if node == last {
      assert node !in init;
    } else {
      DistinctOnce(init, node);
    }
  }

  /** The list that a round starts from names every active, disabled key exactly once, as long as keys are
      distinct; they are in every pool that was never replaced by nodes with clashing keys. */
  lemma DisabledKeysOnce(s: PoolState)
    requires DistinctKeys(s)
    ensures DisabledOnce(s, DisabledKeys(s.proxies, s.failures))
    ensures forall key ::
      key in DisabledKeys(s.proxies, s.failures) <==> key in Keys(s.proxies) && IsDisabledKey(s, key)
  {
    DisabledKeysMembers(s.proxies, s.failures);
    DisabledKeysDistinct(s.proxies, s.failures);
    var nodes := DisabledKeys(s.proxies, s.failures);
    forall node | node in nodes
      ensures Copies(nodes, node) == 1
    {
      DistinctOnce(nodes, node);
    }
  }

  lemma InFlightIsListed(r: Round, nodes: seq<Key>, i: nat)
    requires Inv(r, nodes) && i < |r.workers| && r.workers[i].phase.Checking?
    ensures r.workers[i].phase.node in nodes
  {
    var key := r.workers[i].phase.node;
    UpdateInFlight(r.workers, i, r.workers[i], key);
    assert Placed(r, nodes, key);
  }

  /** The pool answers a verdict as it would have when the round began. */
  lemma CountedAsAtStart(c: Setup, run: seq<Round>, others: seq<seq<Op>>, k: nat, i: nat, verdict: Verdict)
    requires IsRun(c, run, others) && k < |others| && DisabledOnce(c.pool, c.nodes)
    requires forall node :: node in c.nodes ==> LeftAlone(others, node)
    requires i < |run[k].workers| && run[k].workers[i].phase.Checking?
    ensures var v := (run[k].workers[i].phase.node, verdict);
      Counted(Meanwhile(c, run[k], others[k]).pool, v) == Counted(c.pool, v)
  {
    var key := run[k].workers[i].phase.node;
    AlwaysPartitioned(c, run, others, k);
    InFlightIsListed(run[k], c.nodes, i);
    var count := c.pool.failures[key].recheckFailures;
    RoundVerdicts(c, run, others, k, key, count);
    StillJudged(c, run, others, k, key, count);
    InFlightUnjudged(run[k], c.nodes, i, Healthy);
    InFlightUnjudged(run[k], c.nodes, i, Unhealthy);
  }

  lemma {:induction false} NoneChecked(ws: seq<Worker>)
    requires forall i :: 0 <= i < |ws| ==> ws[i].stats.checked == 0 && ws[i].stats.recovered == 0
    ensures Total(ws).checked == 0 && Total(ws).recovered == 0
  {
    if ws != [] {
      NoneChecked(ws[..|ws| - 1]);
    }
  }

  lemma {:induction false} NoneUnhealthy(ws: seq<Worker>)
    requires forall i :: 0 <= i < |ws| ==> ws[i].stats.stillDisabled == 0 && ws[i].stats.removed == 0
    ensures Total(ws).stillDisabled == 0 && Total(ws).removed == 0
  {
    if ws != [] {
      NoneUnhealthy(ws[..|ws| - 1]);
    }
  }

  lemma TallySnoc(pool: PoolState, finished: seq<(Key, Verdict)>, v: (Key, Verdict))
    ensures Tally(pool, finished + [v]) == Add(Tally(pool, finished), Counted(pool, v))
  {
    assert (finished + [v])[..|finished|] == finished;
  }

  /** A step changes the counters only by the verdict that it gives. */
  lemma TotalStep(lib: Library, policy: Policy, r: Round, next: Round, i: nat, e: Event)
    requires Step(lib, policy, r, next, i, e)
    ensures Total(next.workers) ==
      if e.Finish? then Add(Total(r.workers), Counted(r.pool, (r.workers[i].phase.node, e.verdict)))
      else Total(r.workers)
    ensures next.finished == if e.Finish? then r.finished + [(r.workers[i].phase.node, e.verdict)] else r.finished
  {
    UpdateCounts(r.workers, i, next.workers[i]);
    assert next.workers == r.workers[i := next.workers[i]];
  }

  lemma TallyStep(lib: Library, policy: Policy, r: Round, next: Round, i: nat, e: Event, pool: PoolState)
    requires Step(lib, policy, r, next, i, e) && Total(r.workers) == Tally(pool, r.finished)
    requires e.Finish? ==>
      Counted(r.pool, (r.workers[i].phase.node, e.verdict)) == Counted(pool, (r.workers[i].phase.node, e.verdict))
    ensures Total(next.workers) == Tally(pool, next.finished)
  {
    TotalStep(lib, policy, r, next, i, e);
    if e.Finish? {
      TallySnoc(pool, r.finished, (r.workers[i].phase.node, e.verdict));
    }
  }

  /** At every point of a round over disabled keys the workers' counters together are the tally. */
  lemma {:induction false} CountersAreTally(c: Setup, run: seq<Round>, others: seq<seq<Op>>, k: nat)
    requires IsRun(c, run, others) && k < |run| && DisabledOnce(c.pool, c.nodes)
    requires forall node :: node in c.nodes ==> LeftAlone(others, node)
    ensures Total(run[k].workers) == Tally(c.pool, run[k].finished)
  {
    if k == 0 {
      NoneChecked(run[0].workers);
      NoneUnhealthy(run[0].workers);
    } else {
      var j := k - 1;
      CountersAreTally(c, run, others, j);
      var i, e := StepOf(c, run, others, j);
      if e.Finish? {
        CountedAsAtStart(c, run, others, j, i, e.verdict);
      }
      TallyStep(c.lib, c.policy, Meanwhile(c, run[j], others[j]), run[k], i, e, c.pool);
    }
  }

  function Given(finished: seq<(Key, Verdict)>, verdict: Verdict): nat {
    if finished == [] then 0
    else Given(finished[..|finished| - 1], verdict) + if finished[|finished| - 1].1 == verdict then 1 else 0
  }

  /** Unhealthy verdicts on keys with two failed rechecks or more. */
  function LastChances(pool: PoolState, finished: seq<(Key, Verdict)>): nat {
    if finished == [] then 0
    else
      var v := finished[|finished| - 1];
      LastChances(pool, finished[..|finished| - 1])
      + if v.1 == Unhealthy && RecordOf(pool, v.0).recheckFailures + 1 >= RECHECK_LIMIT then 1 else 0
  }

  lemma {:induction false} TallyCounts(pool: PoolState, finished: seq<(Key, Verdict)>)
    requires forall v :: v in finished ==> IsDisabledKey(pool, v.0)
    ensures var t := Tally(pool, finished);
      && t.checked == |finished| && t.recovered == Given(finished, Healthy)
      && t.stillDisabled + t.removed == Given(finished, Unhealthy) && t.removed == LastChances(pool, finished)
  {
    if finished != [] {
      TallyCounts(pool, finished[..|finished| - 1]);
      assert finished[|finished| - 1] in finished;
    }
  }

  lemma FinishedAreListed(r: Round, nodes: seq<Key>, v: (Key, Verdict))
    requires Inv(r, nodes) && v in r.finished
    ensures v.0 in nodes
  {
    InChecked(r.finished, v);
    assert Placed(r, nodes, v.0);
  }

  /** What a round reports: `recovered` counts the healthy verdicts, `removed` the unhealthy ones on keys with
      two failed rechecks or more, and `stillDisabled` the other unhealthy ones. */
  lemma RoundCounters(c: Setup, run: seq<Round>, others: seq<seq<Op>>, k: nat)
    requires IsRun(c, run, others) && k < |run| && DisabledOnce(c.pool, c.nodes)
    requires forall node :: node in c.nodes ==> LeftAlone(others, node)
    ensures var t := Total(run[k].workers); var finished := run[k].finished;
      && t.checked == |finished| && t.recovered == Given(finished, Healthy)
      && t.stillDisabled + t.removed == Given(finished, Unhealthy) && t.removed == LastChances(c.pool, finished)
  {
    CountersAreTally(c, run, others, k);
    AlwaysPartitioned(c, run, others, k);
    forall v | v in run[k].finished
      ensures IsDisabledKey(c.pool, v.0)
    {
      FinishedAreListed(run[k], c.nodes, v);
    }
    TallyCounts(c.pool, run[k].finished);
  }
}
