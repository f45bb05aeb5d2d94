/** What every operation of the pool keeps, over whole runs with a state file and restarts (src/proxy.rs). */
module PoolRuns {
  import opened Prelude
  import opened FailureRecords
  import opened ProxyNodes
  import opened PoolStates

  datatype Op =
    | Merging(nodes: seq<ProxyNode>)
    | Replacing(nodes: seq<ProxyNode>)
    | Succeeded(key: Key)
    | Failing(key: Key, now: nat)
    | Scanned(key: Key, now: nat)
    | RecheckSucceeded(key: Key)
    | RecheckFailed(key: Key)

  function Apply(lib: Library, policy: Policy, s: PoolState, op: Op): PoolState {
    match op
    case Merging(nodes) => Merge(policy, s, Entries(lib, nodes))
    case Replacing(nodes) => Replace(s, Entries(lib, nodes))
    case Succeeded(key) => Success(s, key)
    case Failing(key, now) => Failure(policy, s, key, now)
    case Scanned(key, now) => Scan(s, key, now)
    case RecheckSucceeded(key) => RecheckSuccess(s, key)
    case RecheckFailed(key) => RecheckFailure(s, key)
  }

  // ----- one operation keeps the pool valid -----

  lemma {:induction false} WithoutMembers(entries: seq<ProxyEntry>, key: Key)
    ensures forall e :: e in Without(entries, key) <==> e in entries && e.key != key
  {
    if entries != [] {
      WithoutMembers(entries[..|entries| - 1], key);
      assert entries == entries[..|entries| - 1] + [entries[|entries| - 1]];
    }
  }

  lemma {:induction false} WithoutDistinct(entries: seq<ProxyEntry>, key: Key)
    requires Distinct(KeySeq(entries))
    ensures Distinct(KeySeq(Without(entries, key)))
  {
    if entries != [] {
      var init, last := entries[..|entries| - 1], entries[|entries| - 1];
      assert entries == init + [last];
      DistinctSnoc(init, last);
      WithoutDistinct(init, key);
      WithoutMembers(init, key);
      assert Keys(Without(init, key)) <= Keys(init);
      DistinctSnoc(Without(init, key), last);
    }
  }

  lemma MergeViewsAgree(policy: Policy, s: PoolState, entries: seq<ProxyEntry>)
    requires ViewsAgree(s)
    ensures ViewsAgree(Merge(policy, s, entries))
  {
    FreshKeys(Keys(s.proxies), s.retired, entries);
    var added := Fresh(Keys(s.proxies), s.retired, entries);
    var t := Merge(policy, s, entries);
    forall e | e in t.proxies && KeyHash(e.key) in t.disabled
      ensures IsDisabledKey(t, e.key)
    {
      if e in added {
        assert e.key in Keys(added);
      } else {
        assert e.key in Keys(s.proxies) && e.key !in Keys(added);
        assert IsDisabledKey(s, e.key);
      }
    }
  }

  lemma MergeValid(lib: Library, policy: Policy, s: PoolState, entries: seq<ProxyEntry>)
    requires Valid(lib, s)
    requires forall e :: e in entries ==> e.key == NodeKey(lib, e.node)
    ensures Valid(lib, Merge(policy, s, entries))
  {
    MergeViewsAgree(policy, s, entries);
    FreshKeys(Keys(s.proxies), s.retired, entries);
    var added := Fresh(Keys(s.proxies), s.retired, entries);
    forall e | e in added
      ensures e.key in Keys(added)
    {
    }
  }

  lemma RetireValid(lib: Library, s: PoolState, key: Key)
    requires Valid(lib, s)
    ensures Valid(lib, Retire(s.(failures := s.failures - {key}), key))
    ensures forall e :: e in Retire(s.(failures := s.failures - {key}), key).proxies ==> e.key != key
  {
    WithoutMembers(s.proxies, key);
  }

  /** Every completed operation keeps the pool valid: entries carry their own keys, no active key is
      retired, and the two views of who is disabled agree; stale choices included. */
  lemma ApplyValid(lib: Library, policy: Policy, s: PoolState, op: Op)
    requires Valid(lib, s)
    ensures Valid(lib, Apply(lib, policy, s, op))
  {
    match op
    case Merging(nodes) => MergeValid(lib, policy, s, Entries(lib, nodes));
    case RecheckFailed(key) =>
      if RecheckVerdict(s, key).Removed? {
        RetireValid(lib, s, key);
      }
    case _ =>
  }

  /** Keys stay distinct under every operation except a replacement by nodes with clashing keys. */
  lemma ApplyDistinct(lib: Library, policy: Policy, s: PoolState, op: Op)
    requires DistinctKeys(s)
    requires op.Replacing? ==> Distinct(KeySeq(Entries(lib, op.nodes)))
    ensures DistinctKeys(Apply(lib, policy, s, op))
  {
    match op
    case Merging(nodes) => MergeRefinesFilter(policy, s, Entries(lib, nodes));
    case RecheckFailed(key) => WithoutDistinct(s.proxies, key);
    case _ =>
  }

  lemma KnownDisabledAgrees(policy: Policy, s: PoolState)
    requires s.failures == KnownDisabled(policy, s.disabled, Keys(s.proxies))
    ensures ViewsAgree(s)
  {
    forall e | e in s.proxies
      ensures e.key in Keys(s.proxies)
    {
    }
  }

  /** A pool built from any saved state is valid and has distinct keys. */
  lemma StartValid(lib: Library, policy: Policy, saved: Saved, nodes: seq<ProxyNode>)
    ensures Valid(lib, Start(lib, policy, saved, nodes)) && DistinctKeys(Start(lib, policy, saved, nodes))
  {
    var entries := Entries(lib, RestoreAll(lib, saved.available)) + Entries(lib, nodes);
    var s := Start(lib, policy, saved, nodes);
    FreshKeys({}, saved.retired, entries);
    FreshDistinct({}, saved.retired, entries);
    KnownDisabledAgrees(policy, s);
    forall e | e in s.proxies
      ensures e.key == NodeKey(lib, e.node) && !Retired(s.retired, e)
    {
      assert e in entries && e.key in Keys(s.proxies);
    }
  }

  /** A success, or a successful recheck of a disabled key, puts an active key back into rotation for good:
      no record blocks it at any time, it is not listed as disabled, and no other key is touched. */
  lemma SuccessRestores(lib: Library, policy: Policy, s: PoolState, key: Key, other: Key, now: nat)
    requires Valid(lib, s) && key in Keys(s.proxies) && other != key
    ensures forall op :: op == Succeeded(key) || (op == RecheckSucceeded(key) && IsDisabledKey(s, key)) ==>
      var t := Apply(lib, policy, s, op);
      && !Blocked(Lookup(t, key), now) && KeyHash(key) !in t.disabled && key in Keys(t.proxies)
      && Lookup(t, other) == Lookup(s, other) && (KeyHash(other) in t.disabled <==> KeyHash(other) in s.disabled)
  {
    var e :| e in s.proxies && e.key == key;
    assert KeyHash(key) in s.disabled ==> IsDisabledKey(s, key);
  }

  /** A merge marks the keys that it adds and finds listed, and touches no other record. */
  lemma MergeRecord(policy: Policy, s: PoolState, entries: seq<ProxyEntry>, key: Key)
    ensures Lookup(Merge(policy, s, entries), key) ==
      if key in Keys(Fresh(Keys(s.proxies), s.retired, entries)) && KeyHash(key) in s.disabled
      then Some(DisabledRecord(policy, s.disabled[KeyHash(key)])) else Lookup(s, key)
    ensures key in Keys(Merge(policy, s, entries).proxies) <==>
      key in Keys(s.proxies) || key in Keys(Fresh(Keys(s.proxies), s.retired, entries))
  {
    var added := Fresh(Keys(s.proxies), s.retired, entries);
    assert Keys(s.proxies + added) == Keys(s.proxies) + Keys(added);
  }

  function ApplyAll(lib: Library, policy: Policy, s: PoolState, ops: seq<Op>): PoolState {
    if ops == [] then s
    else Apply(lib, policy, ApplyAll(lib, policy, s, ops[..|ops| - 1]), ops[|ops| - 1])
  }

  // ----- the pool together with its state file -----

  /** `file` is what the state file means, or None while it is missing or unreadable. */
  datatype World = World(pool: PoolState, file: Option<Saved>)

  /** An operation (a recheck verdict may defer its save), a flush of the pool state, or a restart. */
  datatype Action = Act(op: Op, deferred: bool) | Flush | Restart(nodes: seq<ProxyNode>)

  /** Whether the operation writes the state file before it returns. */
  predicate Saves(policy: Policy, s: PoolState, op: Op, deferred: bool) {
    match op
    case Merging(_) => true
    case Replacing(_) => true
    case Succeeded(key) => key in s.failures && WasDisabled(s.failures[key])
    case Failing(key, now) => NewlyDisabled(policy, s, key, now)
    case Scanned(_, _) => false
    case RecheckSucceeded(key) => IsDisabledKey(s, key) && !deferred
    case RecheckFailed(key) =>
      match RecheckVerdict(s, key)
      case NotDisabled => false
      case StillDisabled(_) => !deferred
      case Removed(_) => key in Keys(s.proxies) && !deferred
  }

  function Written(w: World): World {
    w.(file := Some(SavedOf(w.pool)))
  }

  function Step(lib: Library, policy: Policy, w: World, a: Action): World {
    match a
    case Act(op, deferred) =>
      var next := w.(pool := Apply(lib, policy, w.pool, op));
      if Saves(policy, w.pool, op, deferred) then Written(next) else next
    case Flush => Written(w)
    case Restart(nodes) =>
      Written(World(Start(lib, policy, if w.file.Some? then w.file.value else NOTHING_SAVED, nodes), w.file))
  }

  function Run(lib: Library, policy: Policy, w: World, actions: seq<Action>): World {
    if actions == [] then w
    else Step(lib, policy, Run(lib, policy, w, actions[..|actions| - 1]), actions[|actions| - 1])
  }

  /** Every reachable pool is valid, whatever is done to it and however often it restarts. */
  lemma {:induction false} RunValid(lib: Library, policy: Policy, w: World, actions: seq<Action>)
    requires Valid(lib, w.pool)
    ensures Valid(lib, Run(lib, policy, w, actions).pool)
  {
    if actions != [] {
      var before := Run(lib, policy, w, actions[..|actions| - 1]);
      RunValid(lib, policy, w, actions[..|actions| - 1]);
      match actions[|actions| - 1]
      case Act(op, _) => ApplyValid(lib, policy, before.pool, op);
      case Flush =>
      case Restart(nodes) =>
        StartValid(lib, policy, if before.file.Some? then before.file.value else NOTHING_SAVED, nodes);
    }
  }

  /** Keys stay distinct in every run whose replacements bring no clashing keys. */
  lemma {:induction false} RunDistinct(lib: Library, policy: Policy, w: World, actions: seq<Action>)
    requires DistinctKeys(w.pool)
    requires forall a :: a in actions && a.Act? && a.op.Replacing? ==> Distinct(KeySeq(Entries(lib, a.op.nodes)))
    ensures DistinctKeys(Run(lib, policy, w, actions).pool)
  {
    if actions != [] {
      var init, a := actions[..|actions| - 1], actions[|actions| - 1];
      assert a in actions && forall b :: b in init ==> b in actions;
      RunDistinct(lib, policy, w, init);
      var before := Run(lib, policy, w, init);
      match a
      case Act(op, _) => ApplyDistinct(lib, policy, before.pool, op);
      case Flush =>
      case Restart(nodes) =>
        StartValid(lib, policy, if before.file.Some? then before.file.value else NOTHING_SAVED, nodes);
    }
  }

  predicate InSync(w: World) {
    w.file == Some(SavedOf(w.pool))
  }

  /** An operation that does not defer its save leaves the file equal to the pool, with one exception:
      the recheck failure that retires a key which is no longer active. */
  lemma FileStaysInSync(lib: Library, policy: Policy, w: World, op: Op)
    requires Valid(lib, w.pool) && InSync(w)
    ensures InSync(Step(lib, policy, w, Act(op, false))) <==>
      !(op.RecheckFailed? && RecheckVerdict(w.pool, op.key).Removed? && op.key !in Keys(w.pool.proxies))
  {
    if op.RecheckFailed? && RecheckVerdict(w.pool, op.key).Removed? {
      assert KeyHash(op.key) in w.pool.disabled;
      assert KeyHash(op.key) !in Apply(lib, policy, w.pool, op).disabled;
    }
  }

  /** A caller that reports rechecks one by one reaches the exception: a stale failure of an unknown key
      disables it, and of three failed rechecks, each saved at once, the last leaves no trace in the file
      until the next save. */
  lemma RetirementNotSaved(lib: Library, policy: Policy, key: Key, now: nat)
    requires policy.threshold == 1 && policy.disableAfter == 1
    ensures var check := Act(RecheckFailed(key), false);
      var reports := [Act(Failing(key, now), false), check, check, check];
      var w := World(EMPTY_POOL, Some(SavedOf(EMPTY_POOL)));
      && (forall n :: 0 <= n <= 3 ==> InSync(Run(lib, policy, w, reports[..n])))
      && KeyHash(key) in Run(lib, policy, w, reports).pool.retired
      && KeyHash(key) !in Run(lib, policy, w, reports).file.value.retired
      && Sealed(Run(lib, policy, w, reports + [Flush]), key)
  {
    var check := Act(RecheckFailed(key), false);
    var reports := [Act(Failing(key, now), false), check, check, check];
    var w0 := World(EMPTY_POOL, Some(SavedOf(EMPTY_POOL)));
    var w1 := Step(lib, policy, w0, reports[0]);
    var w2 := Step(lib, policy, w1, check);
    var w3 := Step(lib, policy, w2, check);
    var w4 := Step(lib, policy, w3, check);
    OneMore(lib, policy, w0, reports, 0);
    OneMore(lib, policy, w0, reports, 1);
    OneMore(lib, policy, w0, reports, 2);
    OneMore(lib, policy, w0, reports, 3);
    assert reports[..4] == reports && (reports + [Flush])[..4] == reports;
    assert w1.pool.failures[key] == DisabledRecord(policy, 0);
    assert w2.pool.failures[key].recheckFailures == 1 && w3.pool.failures[key].recheckFailures == 2;
    assert w4.file == w3.file && w4.pool.retired == {KeyHash(key)};
    assert InSync(w0) && InSync(w1) && InSync(w2) && InSync(w3);
    forall n | 0 <= n <= 3
      ensures InSync(Run(lib, policy, w0, reports[..n]))
    {
      assert n == 0 || n == 1 || n == 2 || n == 3;
    }
  }

  lemma OneMore(lib: Library, policy: Policy, w: World, actions: seq<Action>, n: nat)
    requires n < |actions|
    ensures Run(lib, policy, w, actions[..n + 1]) == Step(lib, policy, Run(lib, policy, w, actions[..n]), actions[n])
  {
    assert actions[..n + 1][..n] == actions[..n];
  }

  // ----- retirement is final -----

  /** The key is retired in memory and in the file. */
  predicate Sealed(w: World, key: Key) {
    KeyHash(key) in w.pool.retired && w.file.Some? && KeyHash(key) in w.file.value.retired
  }

  lemma ApplyKeepsRetired(lib: Library, policy: Policy, s: PoolState, op: Op, key: Key)
    requires KeyHash(key) in s.retired && !op.Replacing?
    ensures KeyHash(key) in Apply(lib, policy, s, op).retired
  {
  }

  /** Once retired and saved, a key is never active again in any run without a replacement. */
  lemma {:induction false} RetiredForever(lib: Library, policy: Policy, w: World, actions: seq<Action>, key: Key)
    requires Valid(lib, w.pool) && Sealed(w, key)
    requires forall a :: a in actions ==> !(a.Act? && a.op.Replacing?)
    ensures Sealed(Run(lib, policy, w, actions), key)
    ensures key !in Keys(Run(lib, policy, w, actions).pool.proxies)
  {
    RunValid(lib, policy, w, actions);
    if actions != [] {
      var before := Run(lib, policy, w, actions[..|actions| - 1]);
      RetiredForever(lib, policy, w, actions[..|actions| - 1], key);
      match actions[|actions| - 1]
      case Act(op, _) =>
        assert actions[|actions| - 1] in actions;
        ApplyKeepsRetired(lib, policy, before.pool, op, key);
      case Flush =>
      case Restart(nodes) => StartValid(lib, policy, before.file.value, nodes);
    }
  }

  /** The file tells of `key` what the pool knows: whether it is retired, and whether and with which count
      it is disabled. A file in sync does. */
  predicate VerdictSaved(w: World, key: Key) {
    && w.file.Some?
    && (KeyHash(key) in w.file.value.retired <==> KeyHash(key) in w.pool.retired)
    && (KeyHash(key) in w.file.value.disabled <==> KeyHash(key) in w.pool.disabled)
    && (KeyHash(key) in w.pool.disabled ==> w.file.value.disabled[KeyHash(key)] == w.pool.disabled[KeyHash(key)])
  }

  /** Among the saved nodes that still build, or among the given ones, is one with this key. */
  ghost predicate BroughtBack(lib: Library, file: Saved, nodes: seq<ProxyNode>, key: Key) {
    key in Keys(Entries(lib, RestoreAll(lib, file.available)) + Entries(lib, nodes))
  }

  /** Actions at `w` that leave it to the rechecks to decide about `key`: any operation but a success of
      this key or a replacement, any flush, and a restart that reads the last verdict on the key and, unless
      it is retired, finds the key again. */
  ghost predicate OnlyRechecks(lib: Library, w: World, a: Action, key: Key) {
    match a
    case Act(op, _) =>
      (match op
       case Replacing(_) => false
       case Succeeded(k) => k != key
       case RecheckSucceeded(k) => k != key
       case _ => true)
    case Flush => true
    case Restart(nodes) =>
      VerdictSaved(w, key) && (KeyHash(key) in w.pool.retired || BroughtBack(lib, w.file.value, nodes, key))
  }

  function OneFailedRecheck(a: Action, key: Key): nat {
    if a == Act(RecheckFailed(key), true) || a == Act(RecheckFailed(key), false) then 1 else 0
  }

  function FailedRechecks(actions: seq<Action>, key: Key): nat {
    if actions == [] then 0
    else FailedRechecks(actions[..|actions| - 1], key) + OneFailedRecheck(actions[|actions| - 1], key)
  }

  /** A disabled key, active or known from a stale report only, with its number of failed rechecks. */
  predicate AwaitsRecheck(s: PoolState, key: Key, failed: nat) {
    IsDisabledKey(s, key) && s.failures[key].recheckFailures == failed
  }

  /** A key that was just disabled: no failed recheck yet. */
  predicate JustDisabled(s: PoolState, key: Key) {
    AwaitsRecheck(s, key, 0)
  }

  /** What stays as long as the key is neither retired nor lost. */
  predicate StandsBy(s: PoolState, t: PoolState, key: Key) {
    && (key in Keys(s.proxies) ==> key in Keys(t.proxies))
    && (KeyHash(key) !in s.retired ==> KeyHash(key) !in t.retired)
  }

  lemma RecheckAwaits(s: PoolState, checked: Key, key: Key, failed: nat)
    requires AwaitsRecheck(s, key, failed)
    ensures var t := RecheckFailure(s, checked);
      if checked != key then AwaitsRecheck(t, key, failed) && StandsBy(s, t, key)
      else if failed + 1 < RECHECK_LIMIT then AwaitsRecheck(t, key, failed + 1) && StandsBy(s, t, key)
      else KeyHash(key) in t.retired
  {
    WithoutMembers(s.proxies, checked);
    if e :| e in s.proxies && e.key == key && checked != key {
      assert e in Without(s.proxies, checked);
    }
  }

  /** A restart that reads the last verdict and finds the key again goes on where the pool was. */
  lemma RestartAwaits(lib: Library, policy: Policy, w: World, nodes: seq<ProxyNode>, key: Key, failed: nat)
    requires Valid(lib, w.pool) && AwaitsRecheck(w.pool, key, failed) && KeyHash(key) !in w.pool.retired
    requires VerdictSaved(w, key) && BroughtBack(lib, w.file.value, nodes, key)
    ensures var t := Step(lib, policy, w, Restart(nodes)).pool;
      AwaitsRecheck(t, key, failed) && StandsBy(w.pool, t, key) && key in Keys(t.proxies)
  {
    var saved := w.file.value;
    FreshKeys({}, saved.retired, Entries(lib, RestoreAll(lib, saved.available)) + Entries(lib, nodes));
  }

  lemma ApplyAwaits(lib: Library, policy: Policy, s: PoolState, op: Op, key: Key, failed: nat)
    requires ViewsAgree(s) && AwaitsRecheck(s, key, failed)
    requires !op.Replacing? && op != Succeeded(key) && op != RecheckSucceeded(key)
    ensures var t := Apply(lib, policy, s, op);
      if op != RecheckFailed(key) then AwaitsRecheck(t, key, failed) && StandsBy(s, t, key)
      else if failed + 1 < RECHECK_LIMIT then AwaitsRecheck(t, key, failed + 1) && StandsBy(s, t, key)
      else KeyHash(key) in t.retired
  {
    match op
    case Merging(nodes) => MergeRecord(policy, s, Entries(lib, nodes), key);
    case RecheckFailed(k) => RecheckAwaits(s, k, key, failed);
    case _ =>
  }

  /** What one more action does to the tally. */
  lemma RecheckStep(lib: Library, policy: Policy, w: World, a: Action, key: Key, n: nat)
    requires Valid(lib, w.pool) && OnlyRechecks(lib, w, a, key)
    requires if n < RECHECK_LIMIT then AwaitsRecheck(w.pool, key, n) else KeyHash(key) in w.pool.retired
    requires n < RECHECK_LIMIT && a.Restart? ==> KeyHash(key) !in w.pool.retired
    ensures var m := n + OneFailedRecheck(a, key); var t := Step(lib, policy, w, a).pool;
      if m < RECHECK_LIMIT then AwaitsRecheck(t, key, m) && StandsBy(w.pool, t, key) else KeyHash(key) in t.retired
  {
    match a
    case Act(op, _) =>
      if n < RECHECK_LIMIT {
        ApplyAwaits(lib, policy, w.pool, op, key, n);
      } else {
        ApplyKeepsRetired(lib, policy, w.pool, op, key);
      }
    case Flush =>
    case Restart(nodes) =>
      if n < RECHECK_LIMIT {
        RestartAwaits(lib, policy, w, nodes, key, n);
      }
  }

  /** Each action of a run leaves it to the rechecks to decide. */
  ghost predicate OnlyRechecksDecide(lib: Library, policy: Policy, w: World, actions: seq<Action>, key: Key) {
    forall i :: 0 <= i < |actions| ==> OnlyRechecks(lib, Run(lib, policy, w, actions[..i]), actions[i], key)
  }

  lemma OnlyRechecksBefore(lib: Library, policy: Policy, w: World, actions: seq<Action>, key: Key)
    requires actions != [] && OnlyRechecksDecide(lib, policy, w, actions, key)
    ensures OnlyRechecksDecide(lib, policy, w, actions[..|actions| - 1], key)
    ensures OnlyRechecks(lib, Run(lib, policy, w, actions[..|actions| - 1]), actions[|actions| - 1], key)
  {
    var init := actions[..|actions| - 1];
    assert forall i :: 0 <= i < |init| ==> init[..i] == actions[..i] && init[i] == actions[i];
  }

  /** From a fresh disable, be the key active or known from a stale report only, it takes exactly three failed
      rechecks, with no success between, to retire it, whatever is flushed and however often the pool restarts
      in between: before the third it is disabled with the exact count, and active if it was; from the third on
      it is retired. A key that is retired already loses its record in a restart. */
  lemma {:induction false} ThreeFailedRechecks(lib: Library, policy: Policy, w: World, actions: seq<Action>, key: Key)
    requires Valid(lib, w.pool) && JustDisabled(w.pool, key)
    requires OnlyRechecksDecide(lib, policy, w, actions, key)
    requires KeyHash(key) in w.pool.retired ==> forall a :: a in actions ==> !a.Restart?
    ensures var t := Run(lib, policy, w, actions).pool; var n := FailedRechecks(actions, key);
      if n < 3 then AwaitsRecheck(t, key, n) && StandsBy(w.pool, t, key)
      else KeyHash(key) in t.retired && key !in Keys(t.proxies)
  {
    RunValid(lib, policy, w, actions);
    if actions != [] {
      var init, a := actions[..|actions| - 1], actions[|actions| - 1];
      assert a in actions && forall b :: b in init ==> b in actions;
      OnlyRechecksBefore(lib, policy, w, actions, key);
      ThreeFailedRechecks(lib, policy, w, init, key);
      RunValid(lib, policy, w, init);
      RecheckStep(lib, policy, Run(lib, policy, w, init), a, key, FailedRechecks(init, key));
    }
    RetiredNotActive(lib, Run(lib, policy, w, actions).pool, key);
  }

  lemma RetiredNotActive(lib: Library, s: PoolState, key: Key)
    requires Valid(lib, s)
    ensures KeyHash(key) in s.retired ==> key !in Keys(s.proxies)
  {
  }

  // ----- the life of one key in the pool -----

  /** What an operation means for the record of the key. */
  function EventsOf(ops: seq<Op>, key: Key): seq<Event> {
    if ops == [] then [] else
    EventsOf(ops[..|ops| - 1], key)
    + match ops[|ops| - 1]
      case Failing(k, now) => if k == key then [Reported(now)] else []
      case Scanned(k, now) => if k == key then [LookedAt(now)] else []
      case _ => []
  }

  /** Operations that do not decide over the key's record otherwise than by failures and scans. */
  predicate NoVerdict(op: Op, key: Key) {
    !op.Replacing? && op != Succeeded(key) && op != RecheckSucceeded(key) && op != RecheckFailed(key)
  }

  lemma AfterEvent(policy: Policy, events: seq<Event>, e: Event)
    ensures After(policy, events + [e]) ==
      var before := After(policy, events);
      match e
      case Reported(now) => Some(Failed(policy, if before.Some? then before.value else FRESH, now))
      case LookedAt(now) => if before.Some? then Some(Settled(before.value, now)) else None
  {
    assert (events + [e])[..|events|] == events;
  }

  lemma EventStep(lib: Library, policy: Policy, s: PoolState, op: Op, key: Key)
    requires key in Keys(s.proxies) && NoVerdict(op, key)
    ensures var t := Apply(lib, policy, s, op);
      && key in Keys(t.proxies)
      && Lookup(t, key) == match op
           case Failing(k, now) => if k == key then Some(Failed(policy, RecordOf(s, key), now)) else Lookup(s, key)
           case Scanned(k, now) =>
             if k == key && key in s.failures then Some(Settled(s.failures[key], now)) else Lookup(s, key)
           case _ => Lookup(s, key)
  {
    match op
    case Merging(nodes) =>
      MergeRecord(policy, s, Entries(lib, nodes), key);
      FreshKeys(Keys(s.proxies), s.retired, Entries(lib, nodes));
    case RecheckFailed(k) =>
      WithoutMembers(s.proxies, k);
      var e :| e in s.proxies && e.key == key;
      assert e in Without(s.proxies, k);
    case _ =>
  }

  lemma {:induction false} RecordFrom(
      lib: Library, policy: Policy, s: PoolState, ops: seq<Op>, key: Key)
    requires key in Keys(s.proxies) && Lookup(s, key) == None
    requires forall op :: op in ops ==> NoVerdict(op, key)
    ensures key in Keys(ApplyAll(lib, policy, s, ops).proxies)
    ensures Lookup(ApplyAll(lib, policy, s, ops), key) == After(policy, EventsOf(ops, key))
  {
    if ops != [] {
      var init, op := ops[..|ops| - 1], ops[|ops| - 1];
      assert op in ops && forall o :: o in init ==> o in ops;
      RecordFrom(lib, policy, s, init, key);
      EventStep(lib, policy, ApplyAll(lib, policy, s, init), op, key);
      assert EventsOf(init, key) + [] == EventsOf(init, key);
      if op.Failing? {
        AfterEvent(policy, EventsOf(init, key), Reported(op.now));
      } else if op.Scanned? {
        AfterEvent(policy, EventsOf(init, key), LookedAt(op.now));
      }
    }
  }

  /** The pool has no memory of an active key's failures: it has no record, or the last thing that happened was a
      success, or a successful recheck of the disabled key. */
  ghost predicate ComesClean(lib: Library, policy: Policy, before: PoolState, s: PoolState, key: Key) {
    && key in Keys(before.proxies)
    && (|| (s == before && key !in s.failures)
        || s == Apply(lib, policy, before, Succeeded(key))
        || (s == Apply(lib, policy, before, RecheckSucceeded(key)) && IsDisabledKey(before, key)))
  }

  /** A success starts the count anew: whatever was before it, in the run that follows, without a verdict on the
      key, the record of the key is what its own failures and scans since then make of it, whatever happens to
      the rest of the pool. */
  lemma RecordFollowsEvents(
      lib: Library, policy: Policy, before: PoolState, s: PoolState, ops: seq<Op>, key: Key)
    requires ComesClean(lib, policy, before, s, key)
    requires forall op :: op in ops ==> NoVerdict(op, key)
    ensures key in Keys(ApplyAll(lib, policy, s, ops).proxies)
    ensures Lookup(ApplyAll(lib, policy, s, ops), key) == After(policy, EventsOf(ops, key))
  {
    RecordFrom(lib, policy, s, ops, key);
  }

  /** So fewer failure reports than T*D since the last success never disable the key, the upper number of them
      always has, and with fewer than T of them no time finds it passed over. */
  lemma PoolReportCountDecides(
      lib: Library, policy: Policy, before: PoolState, s: PoolState, ops: seq<Op>, key: Key, t: nat)
    requires ComesClean(lib, policy, before, s, key)
    requires forall op :: op in ops ==> NoVerdict(op, key)
    ensures var after := ApplyAll(lib, policy, s, ops); var n := Reports(EventsOf(ops, key));
      && (n < LeastReports(policy) ==> !IsDisabledKey(after, key))
      && (n >= MostReports(policy) ==> IsDisabledKey(after, key))
      && (n < policy.threshold ==> !Blocked(Lookup(after, key), t))
  {
    RecordFollowsEvents(lib, policy, before, s, ops, key);
    ReportCountDecides(policy, EventsOf(ops, key));
    FewReportsNeverHold(policy, EventsOf(ops, key), 0, t);
  }

  /** And by a clock that never runs backwards the key is passed over at t exactly while it is disabled or less
      than a cooldown's length has gone by since one of these reports began a cooldown. */
  lemma PoolHoldsBack(
      lib: Library, policy: Policy, before: PoolState, s: PoolState, ops: seq<Op>, key: Key, t: nat)
    requires ComesClean(lib, policy, before, s, key)
    requires forall op :: op in ops ==> NoVerdict(op, key)
    requires Chronological(EventsOf(ops, key)) && Within(EventsOf(ops, key), 0, t)
    ensures var after := ApplyAll(lib, policy, s, ops);
      Blocked(Lookup(after, key), t) <==> IsDisabledKey(after, key) || RecentCooldown(policy, EventsOf(ops, key), t)
  {
    RecordFollowsEvents(lib, policy, before, s, ops, key);
    HeldBackExactly(policy, EventsOf(ops, key), t);
  }

  // ----- the generation -----

  /** The generation counts the changes of the active proxies, and replacements: a bag filled for a generation
      was filled for exactly these proxies. */
  lemma GenerationTracksPool(lib: Library, policy: Policy, s: PoolState, op: Op)
    ensures var t := Apply(lib, policy, s, op);
      t.generation == s.generation + if t.proxies != s.proxies || op.Replacing? then 1 else 0
  {
    match op
    case Merging(nodes) =>
      var added := Fresh(Keys(s.proxies), s.retired, Entries(lib, nodes));
      assert added == [] ==> s.proxies + added == s.proxies;
      assert added != [] ==> |s.proxies + added| > |s.proxies|;
    case RecheckFailed(key) =>
      if key !in Keys(s.proxies) {
        WithoutUnchanged(s.proxies, key);
      }
      WithoutMembers(s.proxies, key);
    case _ =>
  }

  lemma {:induction false} WithoutUnchanged(entries: seq<ProxyEntry>, key: Key)
    requires key !in Keys(entries)
    ensures Without(entries, key) == entries
  {
    if entries != [] {
      var init, last := entries[..|entries| - 1], entries[|entries| - 1];
      assert entries == init + [last];
      assert last in entries && forall e :: e in init ==> e in entries;
      WithoutUnchanged(init, key);
    }
  }

  /** A replacement forgets everything: the pool is the given nodes in order, nothing else is left. */
  lemma ReplacementForgets(lib: Library, policy: Policy, s: PoolState, nodes: seq<ProxyNode>)
    ensures var t := Apply(lib, policy, s, Replacing(nodes));
      && |t.proxies| == |nodes| && (forall i :: 0 <= i < |nodes| ==> t.proxies[i].node == nodes[i])
      && t.retired == {} && t.disabled == map[] && t.failures == map[]
  {
  }
}
