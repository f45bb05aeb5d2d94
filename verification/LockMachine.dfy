/** The pool at lock granularity: any number of threads interleave at every lock operation and at every
    change of the pool, reset of the bag, and draw from it (src/proxy.rs). */
module LockMachine {
  import opened Prelude
  import opened SelectionBags

  datatype Lock = Persistence | State | Selection | Shard(index: nat)

  datatype Mode = Read | Write

  /** Steps under a lock: install a pool of some length, remember the generation, reset the bag to the
      remembered generation, remember the pool's length, draw for that length. */
  datatype Action =
    | Acquire(lock: Lock, mode: Mode)
    | Release(lock: Lock)
    | ChangePool(len: nat)
    | ReadGeneration
    | ResetBag
    | TakeSnapshot
    | Draw

  function Rank(l: Lock): nat {
    match l
    case Persistence => 0
    case State => 1
    case Selection => 2
    case Shard(_) => 3
  }

  datatype Thread = Thread(
    program: seq<Action>, held: map<Lock, Mode>, generation: nat, len: Option<nat>, drawn: Option<nat>)

  /** `lens[g]` is the length of the pool at generation g; the last one is current. */
  datatype Machine = Machine(threads: seq<Thread>, lens: seq<nat>, bag: BagValue)

  function Live(t: Thread): bool {
    t.program != []
  }

  predicate Waits(t: Thread, l: Lock, mode: Mode) {
    Live(t) && t.program[0] == Acquire(l, mode)
  }

  /** Mutexes are taken in write mode. A reader may also have to queue behind a waiting writer. */
  ghost predicate Free(m: Machine, l: Lock, mode: Mode, writersFirst: bool) {
    && (forall j :: 0 <= j < |m.threads| && l in m.threads[j].held ==> mode == Read && m.threads[j].held[l] == Read)
    && (mode == Read && writersFirst ==> forall j :: 0 <= j < |m.threads| ==> !Waits(m.threads[j], l, Write))
  }

  ghost predicate CanStep(m: Machine, i: nat, writersFirst: bool)
    requires i < |m.threads|
  {
    var t := m.threads[i];
    Live(t) && (t.program[0].Acquire? ==> Free(m, t.program[0].lock, t.program[0].mode, writersFirst))
  }

  /** Thread i takes the first action of its program. */
  ghost predicate Step(m: Machine, next: Machine, i: nat, writersFirst: bool) {
    && i < |m.threads| && CanStep(m, i, writersFirst) && |m.lens| > 0
    && |next.threads| == |m.threads|
    && (forall j :: 0 <= j < |m.threads| && j != i ==> next.threads[j] == m.threads[j])
    && var t := m.threads[i].(program := m.threads[i].program[1..]);
       var generation := |m.lens| - 1;
       match m.threads[i].program[0]
       case Acquire(l, mode) =>
         next == m.(threads := next.threads) && next.threads[i] == t.(held := t.held[l := mode])
       case Release(l) =>
         next == m.(threads := next.threads)
         && next.threads[i] == t.(held := t.held - {l}, len := if l == State then None else t.len)
       case ChangePool(len) =>
         next == m.(threads := next.threads, lens := m.lens + [len])
         && next.threads[i] == t.(generation := generation + 1)
       case ReadGeneration =>
         next == m.(threads := next.threads) && next.threads[i] == t.(generation := generation)
       case ResetBag =>
         next == m.(threads := next.threads, bag := BagValue(t.generation, [])) && next.threads[i] == t
       case TakeSnapshot =>
         next == m.(threads := next.threads) && next.threads[i] == t.(len := Some(m.lens[generation]))
       case Draw =>
         next == m.(threads := next.threads, bag := next.bag)
         && if t.len.Some? && t.len.value > 0
            then next.threads[i].drawn.Some? && next.threads[i] == t.(drawn := next.threads[i].drawn)
                 && NextIndex(m.bag, generation, t.len.value, next.bag, next.threads[i].drawn.value)
            else next.bag == m.bag && next.threads[i] == t.(drawn := None)
  }

  // ----- the locking discipline -----

  /** What a program holds at some point, and whether it has looked at the pool's length since. */
  datatype Holding = Holding(held: map<Lock, Mode>, snapshot: bool)

  const NOTHING := Holding(map[], false)

  /** Locks are taken in strictly increasing rank, so at most one shard at a time; each step runs under its locks. */
  function Obey(h: Holding, a: Action): Option<Holding> {
    match a
    case Acquire(l, mode) =>
      if (forall k :: k in h.held ==> Rank(k) < Rank(l)) && (l != State ==> mode == Write)
      then Some(Holding(h.held[l := mode], h.snapshot)) else None
    case Release(l) =>
      if l in h.held then Some(Holding(h.held - {l}, h.snapshot && l != State)) else None
    case ChangePool(_) =>
      if State in h.held && h.held[State] == Write && !h.snapshot then Some(h) else None
    case ReadGeneration => if State in h.held then Some(h) else None
    case ResetBag => if Selection in h.held then Some(h) else None
    case TakeSnapshot =>
      if State in h.held && h.held[State] == Read then Some(h.(snapshot := true)) else None
    case Draw => if h.snapshot && Selection in h.held then Some(h) else None
  }

  function Through(h: Holding, program: seq<Action>): Option<Holding>
    decreases program
  {
    if program == [] then Some(h) else
    match Obey(h, program[0])
    case None => None
    case Some(next) => Through(next, program[1..])
  }

  ghost predicate Disciplined(t: Thread) {
    && Through(Holding(t.held, t.len.Some?), t.program) == Some(NOTHING)
    && (t.len.Some? ==> State in t.held && t.held[State] == Read)
    && (forall l :: l in t.held && l != State ==> t.held[l] == Write)
  }

  ghost predicate Exclusive(m: Machine) {
    forall i, j, l :: 0 <= i < |m.threads| && 0 <= j < |m.threads| && i != j ==>
      l in m.threads[i].held && l in m.threads[j].held ==> m.threads[i].held[l] == Read
  }

  ghost predicate ThreadFits(t: Thread, lens: seq<nat>) {
    |lens| > 0 && t.generation < |lens| && (t.len.Some? ==> t.len.value == lens[|lens| - 1])
  }

  /** A non-empty bag holds distinct indices below the pool's length at the generation it was filled for. */
  ghost predicate BagFits(b: BagValue, lens: seq<nat>) {
    b.generation < |lens| && ValidFor(b, b.generation, lens[b.generation])
  }

  ghost predicate Inv(m: Machine) {
    && (forall i :: 0 <= i < |m.threads| ==> Disciplined(m.threads[i]) && ThreadFits(m.threads[i], m.lens))
    && Exclusive(m)
    && |m.lens| > 0 && BagFits(m.bag, m.lens)
  }

  // ----- every step keeps the invariant -----

  lemma StepDisciplined(m: Machine, next: Machine, i: nat, writersFirst: bool)
    requires Inv(m) && Step(m, next, i, writersFirst)
    ensures Disciplined(next.threads[i])
  {
    var t := m.threads[i];
    assert Obey(Holding(t.held, t.len.Some?), t.program[0]).Some?;
  }

  lemma StepExclusive(m: Machine, next: Machine, i: nat, writersFirst: bool)
    requires Inv(m) && Step(m, next, i, writersFirst)
    ensures Exclusive(next)
  {
  }

  /** Only the holder of the state write lock changes the pool, and then nobody relies on its length. */
  lemma NobodyLooks(m: Machine, i: nat, j: nat)
    requires Inv(m) && i < |m.threads| && j < |m.threads| && i != j
    requires State in m.threads[i].held && m.threads[i].held[State] == Write
    ensures m.threads[j].len == None
  {
  }

  lemma StepThreadsFit(m: Machine, next: Machine, i: nat, writersFirst: bool)
    requires Inv(m) && Step(m, next, i, writersFirst)
    ensures forall j :: 0 <= j < |next.threads| ==> ThreadFits(next.threads[j], next.lens)
  {
    var t := m.threads[i];
    assert Obey(Holding(t.held, t.len.Some?), t.program[0]).Some?;
    forall j | 0 <= j < |next.threads|
      ensures ThreadFits(next.threads[j], next.lens)
    {
      if j != i && t.program[0].ChangePool? {
        NobodyLooks(m, i, j);
      }
    }
  }

  lemma StepBagFits(m: Machine, next: Machine, i: nat, writersFirst: bool)
    requires Inv(m) && Step(m, next, i, writersFirst)
    ensures BagFits(next.bag, next.lens)
  {
    var t := m.threads[i];
    if t.program[0].Draw? && t.len.Some? && t.len.value > 0 {
      NextIndexSafe(m.bag, |m.lens| - 1, t.len.value, next.bag, next.threads[i].drawn.value);
    }
  }

  lemma StepKeepsInv(m: Machine, next: Machine, i: nat, writersFirst: bool)
    requires Inv(m) && Step(m, next, i, writersFirst)
    ensures Inv(next)
  {
    StepDisciplined(m, next, i, writersFirst);
    StepExclusive(m, next, i, writersFirst);
    StepThreadsFit(m, next, i, writersFirst);
    StepBagFits(m, next, i, writersFirst);
  }

  /** The index drawn is inside the pool that is current at the draw, and not offered again in its round. */
  lemma DrawInBounds(m: Machine, next: Machine, i: nat, writersFirst: bool)
    requires Inv(m) && Step(m, next, i, writersFirst) && m.threads[i].program[0] == Draw
    requires m.lens[|m.lens| - 1] > 0
    ensures next.threads[i].drawn.Some? && next.threads[i].drawn.value < m.lens[|m.lens| - 1]
    ensures next.threads[i].drawn.value !in next.bag.remaining
  {
    var t := m.threads[i];
    assert Obey(Holding(t.held, t.len.Some?), Draw).Some?;
    NextIndexSafe(m.bag, |m.lens| - 1, t.len.value, next.bag, next.threads[i].drawn.value);
  }

  // ----- no deadlock -----

  function RequestRank(t: Thread): nat {
    if Live(t) && t.program[0].Acquire? then Rank(t.program[0].lock) else 4
  }

  /** A thread that holds a lock is still running and asks for nothing of lower or equal rank. */
  lemma HolderAsksHigher(t: Thread, l: Lock)
    requires Disciplined(t) && l in t.held
    ensures Live(t) && RequestRank(t) > Rank(l)
  {
    if t.program != [] {
      assert Obey(Holding(t.held, t.len.Some?), t.program[0]).Some?;
    }
  }

  /** From a live thread, following who blocks it leads to a thread that can step. */
  lemma SomeoneCanStep(m: Machine, i: nat, writersFirst: bool) returns (j: nat)
    requires Inv(m) && i < |m.threads| && Live(m.threads[i])
    ensures j < |m.threads| && CanStep(m, j, writersFirst)
    decreases 4 - RequestRank(m.threads[i])
  {
    if CanStep(m, i, writersFirst) {
      return i;
    }
    var l := m.threads[i].program[0].lock;
    if k :| 0 <= k < |m.threads| && l in m.threads[k].held {
      HolderAsksHigher(m.threads[k], l);
      j := SomeoneCanStep(m, k, writersFirst);
    } else {
      j :| 0 <= j < |m.threads| && Waits(m.threads[j], l, Write);
    }
  }

  lemma DrawExists(b: BagValue, generation: nat, len: nat) returns (after: BagValue, index: nat)
    requires len > 0
    ensures NextIndex(b, generation, len, after, index)
  {
    var round := if Refills(b, generation) then Range(len) else b.remaining;
    after, index := BagValue(generation, round[..|round| - 1]), round[|round| - 1];
    assert after.remaining + [index] == round;
  }

  /** Whoever is not kept waiting has a step to take. */
  lemma StepExists(m: Machine, i: nat, writersFirst: bool) returns (next: Machine)
    requires |m.lens| > 0 && i < |m.threads| && CanStep(m, i, writersFirst)
    ensures Step(m, next, i, writersFirst)
  {
    var t := m.threads[i].(program := m.threads[i].program[1..]);
    var generation := |m.lens| - 1;
    match m.threads[i].program[0]
    case Acquire(l, mode) => next := m.(threads := m.threads[i := t.(held := t.held[l := mode])]);
    case Release(l) =>
      next := m.(threads := m.threads[i := t.(held := t.held - {l}, len := if l == State then None else t.len)]);
    case ChangePool(len) =>
      next := m.(threads := m.threads[i := t.(generation := generation + 1)], lens := m.lens + [len]);
    case ReadGeneration => next := m.(threads := m.threads[i := t.(generation := generation)]);
    case ResetBag => next := m.(threads := m.threads[i := t], bag := BagValue(t.generation, []));
    case TakeSnapshot => next := m.(threads := m.threads[i := t.(len := Some(m.lens[generation]))]);
    case Draw =>
      if t.len.Some? && t.len.value > 0 {
        var after, index := DrawExists(m.bag, generation, t.len.value);
        next := m.(threads := m.threads[i := t.(drawn := Some(index))], bag := after);
      } else {
        next := m.(threads := m.threads[i := t.(drawn := None)]);
      }
  }

  /** How many steps the threads still have to take. */
  function StepsLeft(threads: seq<Thread>): nat {
    if threads == [] then 0 else StepsLeft(threads[..|threads| - 1]) + |threads[|threads| - 1].program|
  }

  lemma {:induction false} UpdateStepsLeft(threads: seq<Thread>, i: nat, t: Thread)
    requires i < |threads|
    ensures StepsLeft(threads[i := t]) + |threads[i].program| == StepsLeft(threads) + |t.program|
    decreases |threads|
  {
    var last := |threads| - 1;
    assert threads[i := t][..last] == if i == last then threads[..last] else threads[..last][i := t];
    if i < last {
      UpdateStepsLeft(threads[..last], i, t);
    }
  }

  lemma StepIsProgress(m: Machine, next: Machine, i: nat, writersFirst: bool)
    requires Step(m, next, i, writersFirst)
    ensures StepsLeft(next.threads) + 1 == StepsLeft(m.threads)
  {
    UpdateStepsLeft(m.threads, i, next.threads[i]);
    assert next.threads == m.threads[i := next.threads[i]];
  }

  lemma {:induction false} NoneLeft(threads: seq<Thread>)
    ensures StepsLeft(threads) == 0 <==> forall i :: 0 <= i < |threads| ==> !Live(threads[i])
  {
    if threads != [] {
      var last := |threads| - 1;
      NoneLeft(threads[..last]);
      if StepsLeft(threads) == 0 {
        forall i | 0 <= i < |threads|
          ensures !Live(threads[i])
        {
          assert i < last ==> threads[..last][i] == threads[i];
        }
      }
    }
  }

  // ----- the pool's operations -----

  function Guarded(l: Lock, mode: Mode, body: seq<Action>): seq<Action> {
    [Acquire(l, mode)] + body + [Release(l)]
  }

  function VisitShards(shards: seq<nat>): seq<Action> {
    if shards == [] then [] else Guarded(Shard(shards[0]), Write, []) + VisitShards(shards[1..])
  }

  function SaveState(hasPath: bool): seq<Action> {
    if hasPath then Guarded(Persistence, Write, Guarded(State, Read, [])) else []
  }

  const RESET := Guarded(Selection, Write, [ResetBag])

  const CURRENT_RESET := Guarded(State, Read, [ReadGeneration]) + RESET

  /** Draws, each followed by a look at the failure shard of the drawn entry unless it was already tried. */
  function Scans(looks: seq<Option<nat>>): seq<Action> {
    if looks == [] then []
    else [Draw] + (if looks[0].Some? then VisitShards([looks[0].value]) else []) + Scans(looks[1..])
  }

  /** One call of a pool operation; the fields record the choices its data makes. */
  datatype Call =
    | Merge(marked: seq<nat>, newLen: Option<nat>)
    | Replace(size: nat, shards: seq<nat>)
    | Next(looks: Option<seq<Option<nat>>>)
    | Success(shard: nat, wasDisabled: bool)
    | Failure(shard: nat, disables: bool)
    | RecheckSuccess(shard: nat, recovered: bool, saves: bool)
    | RecheckStill(shard: nat, wasDisabled: bool, saves: bool)
    | RecheckRemove(shard: nat, newLen: Option<nat>, saves: bool)
    | DisabledList(shards: seq<nat>)
    | Len
    | Save

  /** The lock operations of a call, in program order. */
  function Script(call: Call, hasPath: bool): seq<Action> {
    match call
    case Merge(marked, newLen) =>
      Guarded(State, Write, VisitShards(marked) + if newLen.Some? then [ChangePool(newLen.value)] else [])
      + (if newLen.Some? then RESET else []) + SaveState(hasPath)
    case Replace(newLen, shards) =>
      Guarded(State, Write, [ChangePool(newLen)]) + RESET + VisitShards(shards) + SaveState(hasPath)
    case Next(looks) =>
      Guarded(State, Read, [TakeSnapshot] + if looks.Some? then Guarded(Selection, Write, Scans(looks.value)) else [])
    case Success(shard, wasDisabled) =>
      VisitShards([shard]) + if wasDisabled then Guarded(State, Write, []) + SaveState(hasPath) else []
    case Failure(shard, disables) =>
      VisitShards([shard]) + if disables then Guarded(State, Write, []) + SaveState(hasPath) else []
    case RecheckSuccess(shard, recovered, saves) =>
      VisitShards([shard])
      + if recovered then Guarded(State, Write, []) + SaveState(hasPath && saves) + CURRENT_RESET else []
    case RecheckStill(shard, wasDisabled, saves) =>
      VisitShards([shard]) + if wasDisabled then Guarded(State, Write, []) + SaveState(hasPath && saves) else []
    case RecheckRemove(shard, newLen, saves) =>
      VisitShards([shard]) + VisitShards([shard])
      + Guarded(State, Write, if newLen.Some? then [ChangePool(newLen.value)] else [])
      + if newLen.Some? then RESET + SaveState(hasPath && saves) else []
    case DisabledList(shards) => Guarded(State, Read, []) + VisitShards(shards)
    case Len => Guarded(State, Read, [])
    case Save => SaveState(hasPath)
  }

  function Program(calls: seq<Call>, hasPath: bool): seq<Action> {
    if calls == [] then [] else Script(calls[0], hasPath) + Program(calls[1..], hasPath)
  }

  /** Running the segment leaves the holding as it was. */
  predicate Balanced(h: Holding, segment: seq<Action>) {
    Through(h, segment) == Some(h)
  }

  lemma {:induction false} ThroughAppend(h: Holding, a: seq<Action>, b: seq<Action>)
    requires Through(h, a).Some?
    ensures Through(h, a + b) == Through(Through(h, a).value, b)
    decreases a
  {
    if a == [] {
      assert a + b == b;
    } else {
      assert (a + b)[1..] == a[1..] + b;
      ThroughAppend(Obey(h, a[0]).value, a[1..], b);
    }
  }

  lemma BalancedAppend(h: Holding, a: seq<Action>, b: seq<Action>)
    requires Balanced(h, a) && Balanced(h, b)
    ensures Balanced(h, a + b)
  {
    ThroughAppend(h, a, b);
  }

  lemma GuardBalanced(h: Holding, l: Lock, mode: Mode, body: seq<Action>, snapshot: bool)
    requires Obey(h, Acquire(l, mode)).Some?
    requires Through(Holding(h.held[l := mode], h.snapshot), body) == Some(Holding(h.held[l := mode], snapshot))
    requires if l == State then !h.snapshot else snapshot == h.snapshot
    ensures Balanced(h, Guarded(l, mode, body))
  {
    var inside := Holding(h.held[l := mode], snapshot);
    assert Through(inside, [Release(l)]) == Obey(inside, Release(l)) by {
      assert [Release(l)][1..] == [];
    }
    ThroughAppend(Holding(h.held[l := mode], h.snapshot), body, [Release(l)]);
    assert Guarded(l, mode, body)[1..] == body + [Release(l)];
    assert l !in h.held;
    assert h.held[l := mode] - {l} == h.held;
  }

  lemma {:induction false} VisitBalanced(h: Holding, shards: seq<nat>)
    requires forall k :: k in h.held ==> Rank(k) < 3
    ensures Balanced(h, VisitShards(shards))
  {
    if shards != [] {
      GuardBalanced(h, Shard(shards[0]), Write, [], h.snapshot);
      VisitBalanced(h, shards[1..]);
      BalancedAppend(h, Guarded(Shard(shards[0]), Write, []), VisitShards(shards[1..]));
    }
  }

  lemma SaveBalanced(hasPath: bool)
    ensures Balanced(NOTHING, SaveState(hasPath))
  {
    if hasPath {
      var h := Holding(map[Persistence := Write], false);
      GuardBalanced(h, State, Read, [], false);
      assert NOTHING.held[Persistence := Write] == h.held;
      GuardBalanced(NOTHING, Persistence, Write, Guarded(State, Read, []), false);
    }
  }

  lemma One(h: Holding, a: Action)
    ensures Through(h, [a]) == Obey(h, a)
  {
    assert [a][1..] == [];
  }

  lemma ResetBalanced()
    ensures Balanced(NOTHING, RESET) && Balanced(NOTHING, CURRENT_RESET)
  {
    One(Holding(NOTHING.held[Selection := Write], false), ResetBag);
    GuardBalanced(NOTHING, Selection, Write, [ResetBag], false);
    One(Holding(NOTHING.held[State := Read], false), ReadGeneration);
    GuardBalanced(NOTHING, State, Read, [ReadGeneration], false);
    BalancedAppend(NOTHING, Guarded(State, Read, [ReadGeneration]), RESET);
  }

  lemma {:induction false} ScansBalanced(h: Holding, looks: seq<Option<nat>>)
    requires h.snapshot && Selection in h.held && forall k :: k in h.held ==> Rank(k) < 3
    ensures Balanced(h, Scans(looks))
  {
    if looks != [] {
      var look := if looks[0].Some? then VisitShards([looks[0].value]) else [];
      One(h, Draw);
      if looks[0].Some? {
        VisitBalanced(h, [looks[0].value]);
      }
      ScansBalanced(h, looks[1..]);
      BalancedAppend(h, [Draw], look);
      BalancedAppend(h, [Draw] + look, Scans(looks[1..]));
    }
  }

  lemma NextBalanced(looks: Option<seq<Option<nat>>>)
    ensures Balanced(NOTHING, Script(Next(looks), true)) && Balanced(NOTHING, Script(Next(looks), false))
  {
    var reading := Holding(NOTHING.held[State := Read], false);
    var looked := Holding(NOTHING.held[State := Read], true);
    var inner := if looks.Some? then Guarded(Selection, Write, Scans(looks.value)) else [];
    if looks.Some? {
      ScansBalanced(Holding(looked.held[Selection := Write], true), looks.value);
      GuardBalanced(looked, Selection, Write, Scans(looks.value), true);
    }
    One(reading, TakeSnapshot);
    ThroughAppend(reading, [TakeSnapshot], inner);
    GuardBalanced(NOTHING, State, Read, [TakeSnapshot] + inner, true);
  }

  lemma WriteBalanced(marked: seq<nat>, newLen: Option<nat>)
    ensures Balanced(NOTHING,
      Guarded(State, Write, VisitShards(marked) + if newLen.Some? then [ChangePool(newLen.value)] else []))
  {
    var writing := Holding(NOTHING.held[State := Write], false);
    var change := if newLen.Some? then [ChangePool(newLen.value)] else [];
    VisitBalanced(writing, marked);
    if newLen.Some? {
      One(writing, ChangePool(newLen.value));
    }
    BalancedAppend(writing, VisitShards(marked), change);
    GuardBalanced(NOTHING, State, Write, VisitShards(marked) + change, false);
  }

  lemma VisitThenWriteBalanced(shard: nat, saves: bool)
    ensures Balanced(NOTHING, VisitShards([shard]) + (Guarded(State, Write, []) + SaveState(saves)))
    ensures Balanced(NOTHING, VisitShards([shard]) + [])
  {
    SaveBalanced(saves);
    GuardBalanced(NOTHING, State, Write, [], false);
    VisitBalanced(NOTHING, [shard]);
    BalancedAppend(NOTHING, Guarded(State, Write, []), SaveState(saves));
    BalancedAppend(NOTHING, VisitShards([shard]), Guarded(State, Write, []) + SaveState(saves));
    BalancedAppend(NOTHING, VisitShards([shard]), []);
  }

  /** Every operation obeys the discipline and ends holding nothing. */
  lemma ScriptBalanced(call: Call, hasPath: bool)
    ensures Balanced(NOTHING, Script(call, hasPath))
  {
    ResetBalanced();
    SaveBalanced(true);
    SaveBalanced(false);
    WriteBalanced([], None);
    assert VisitShards([]) + [] == [];
    GuardBalanced(NOTHING, State, Read, [], false);
    match call
    case Merge(marked, newLen) =>
      WriteBalanced(marked, newLen);
      var write := Guarded(State, Write, VisitShards(marked) + if newLen.Some? then [ChangePool(newLen.value)] else []);
      BalancedAppend(NOTHING, write, if newLen.Some? then RESET else []);
      BalancedAppend(NOTHING, write + (if newLen.Some? then RESET else []), SaveState(hasPath));
    case Replace(newLen, shards) =>
      WriteBalanced([], Some(newLen));
      assert VisitShards([]) + [ChangePool(newLen)] == [ChangePool(newLen)];
      var write := Guarded(State, Write, [ChangePool(newLen)]);
      VisitBalanced(NOTHING, shards);
      BalancedAppend(NOTHING, write, RESET);
      BalancedAppend(NOTHING, write + RESET, VisitShards(shards));
      BalancedAppend(NOTHING, write + RESET + VisitShards(shards), SaveState(hasPath));
    case Next(looks) => NextBalanced(looks);
    case Success(shard, _) => VisitThenWriteBalanced(shard, hasPath);
    case Failure(shard, _) => VisitThenWriteBalanced(shard, hasPath);
    case RecheckSuccess(shard, _, saves) =>
      var write := Guarded(State, Write, []) + SaveState(hasPath && saves);
      VisitBalanced(NOTHING, [shard]);
      BalancedAppend(NOTHING, Guarded(State, Write, []), SaveState(hasPath && saves));
      BalancedAppend(NOTHING, write, CURRENT_RESET);
      BalancedAppend(NOTHING, VisitShards([shard]), write + CURRENT_RESET);
      BalancedAppend(NOTHING, VisitShards([shard]), []);
    case RecheckStill(shard, _, saves) => VisitThenWriteBalanced(shard, hasPath && saves);
    case RecheckRemove(shard, newLen, saves) =>
      WriteBalanced([], newLen);
      var change := if newLen.Some? then [ChangePool(newLen.value)] else [];
      assert VisitShards([]) + change == change;
      VisitBalanced(NOTHING, [shard]);
      var visits := VisitShards([shard]) + VisitShards([shard]);
      BalancedAppend(NOTHING, VisitShards([shard]), VisitShards([shard]));
      BalancedAppend(NOTHING, visits, Guarded(State, Write, change));
      BalancedAppend(NOTHING, RESET, SaveState(hasPath && saves));
      BalancedAppend(NOTHING, visits + Guarded(State, Write, change),
        if newLen.Some? then RESET + SaveState(hasPath && saves) else []);
    case DisabledList(shards) =>
      VisitBalanced(NOTHING, shards);
      BalancedAppend(NOTHING, Guarded(State, Read, []), VisitShards(shards));
    case _ =>
  }

  lemma {:induction false} ProgramBalanced(calls: seq<Call>, hasPath: bool)
    ensures Balanced(NOTHING, Program(calls, hasPath))
  {
    if calls != [] {
      ScriptBalanced(calls[0], hasPath);
      ProgramBalanced(calls[1..], hasPath);
      BalancedAppend(NOTHING, Script(calls[0], hasPath), Program(calls[1..], hasPath));
    }
  }

  // ----- whole runs -----

  /** Thread i is about to make the calls `work[i]`; the bag is new. */
  function Initial(work: seq<seq<Call>>, hasPath: bool, len: nat): Machine {
    Machine(seq(|work|, i requires 0 <= i < |work| => Thread(Program(work[i], hasPath), map[], 0, None, None)),
      [len], BagValue(0, []))
  }

  ghost predicate Follows(m: Machine, next: Machine, writersFirst: bool) {
    exists i :: Step(m, next, i, writersFirst)
  }

  ghost predicate IsRun(run: seq<Machine>, work: seq<seq<Call>>, hasPath: bool, len: nat, writersFirst: bool) {
    && |run| > 0 && run[0] == Initial(work, hasPath, len)
    && forall k :: 0 <= k < |run| - 1 ==> Follows(run[k], run[k + 1], writersFirst)
  }

  lemma {:induction false} RunKeepsInv(
      run: seq<Machine>, work: seq<seq<Call>>, hasPath: bool, len: nat, writersFirst: bool, k: nat)
    requires IsRun(run, work, hasPath, len, writersFirst) && k < |run|
    ensures Inv(run[k])
  {
    if k == 0 {
      forall i | 0 <= i < |work|
        ensures Disciplined(run[0].threads[i])
      {
        ProgramBalanced(work[i], hasPath);
      }
    } else {
      RunKeepsInv(run, work, hasPath, len, writersFirst, k - 1);
      var j := k - 1;
      assert Follows(run[j], run[j + 1], writersFirst);
      var i :| Step(run[k - 1], run[k], i, writersFirst);
      StepKeepsInv(run[k - 1], run[k], i, writersFirst);
    }
  }

  lemma {:induction false} StepsTaken(
      run: seq<Machine>, work: seq<seq<Call>>, hasPath: bool, len: nat, writersFirst: bool, k: nat)
    requires IsRun(run, work, hasPath, len, writersFirst) && k < |run|
    ensures k + StepsLeft(run[k].threads) == StepsLeft(run[0].threads)
  {
    if k > 0 {
      var j := k - 1;
      StepsTaken(run, work, hasPath, len, writersFirst, j);
      assert Follows(run[j], run[j + 1], writersFirst);
      var i :| Step(run[j], run[k], i, writersFirst);
      StepIsProgress(run[j], run[k], i, writersFirst);
    }
  }

  /** The pool never deadlocks: a run of any threads making any calls goes on until all of them are done, and
      that takes a fixed number of steps whatever the schedule. */
  lemma NeverDeadlocks(run: seq<Machine>, work: seq<seq<Call>>, hasPath: bool, len: nat, writersFirst: bool)
    requires IsRun(run, work, hasPath, len, writersFirst)
    ensures var m, total := run[|run| - 1], StepsLeft(run[0].threads);
      && |run| - 1 <= total
      && (|run| - 1 == total <==> forall i :: 0 <= i < |m.threads| ==> !Live(m.threads[i]))
      && (|run| - 1 < total ==> exists next :: IsRun(run + [next], work, hasPath, len, writersFirst))
  {
    var m := run[|run| - 1];
    StepsTaken(run, work, hasPath, len, writersFirst, |run| - 1);
    NoneLeft(m.threads);
    RunKeepsInv(run, work, hasPath, len, writersFirst, |run| - 1);
    if i: nat :| i < |m.threads| && Live(m.threads[i]) {
      var j := SomeoneCanStep(m, i, writersFirst);
      var next := StepExists(m, j, writersFirst);
      RunExtends(run, next, j, work, hasPath, len, writersFirst);
    }
  }

  lemma RunExtends(
      run: seq<Machine>, next: Machine, i: nat, work: seq<seq<Call>>, hasPath: bool, len: nat, writersFirst: bool)
    requires IsRun(run, work, hasPath, len, writersFirst) && Step(run[|run| - 1], next, i, writersFirst)
    ensures IsRun(run + [next], work, hasPath, len, writersFirst)
  {
    var longer := run + [next];
    forall k | 0 <= k < |longer| - 1
      ensures Follows(longer[k], longer[k + 1], writersFirst)
    {
      if k < |run| - 1 {
        assert Follows(run[k], run[k + 1], writersFirst);
      }
    }
  }

  /** Every draw of every run indexes inside the pool it draws for. */
  lemma EveryDrawInBounds(
      run: seq<Machine>, work: seq<seq<Call>>, hasPath: bool, len: nat, writersFirst: bool, k: nat, i: nat)
    requires IsRun(run, work, hasPath, len, writersFirst) && k + 1 < |run|
    requires Step(run[k], run[k + 1], i, writersFirst) && run[k].threads[i].program[0] == Draw
    ensures var current := run[k].lens[|run[k].lens| - 1];
      current > 0 ==> run[k + 1].threads[i].drawn.Some? && run[k + 1].threads[i].drawn.value < current
  {
    RunKeepsInv(run, work, hasPath, len, writersFirst, k);
    if run[k].lens[|run[k].lens| - 1] > 0 {
      DrawInBounds(run[k], run[k + 1], i, writersFirst);
    }
  }
}
