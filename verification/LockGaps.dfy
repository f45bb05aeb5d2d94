/** The reports of the pool release one lock before they take the next. What other operations in between do
    to the agreement of the failure records with the list of disabled keys (src/proxy.rs). */
module LockGaps {
  import opened Prelude
  import opened FailureRecords
  import opened ProxyNodes
  import opened PoolStates
  import opened PoolRuns

  // ----- the halves of the reports -----

  /** `report_failure` disables the record under the shard lock. */
  function FailureRecorded(policy: Policy, s: PoolState, key: Key, now: nat): PoolState {
    s.(failures := s.failures[key := Failed(policy, RecordOf(s, key), now)])
  }

  /** A failed recheck is counted in the record under the shard lock. */
  function Recounted(s: PoolState, key: Key, n: nat): PoolState
    requires key in s.failures
  {
    s.(failures := s.failures[key := s.failures[key].(recheckFailures := n)])
  }

  /** A success, and the third failed recheck, drop the record under the shard lock. */
  function Cleared(s: PoolState, key: Key): PoolState {
    s.(failures := s.failures - {key})
  }

  /** What is written later, under the state lock: the key is listed with a count, or no longer listed. */
  function Listed(s: PoolState, key: Key, n: nat): PoolState {
    s.(disabled := s.disabled[KeyHash(key) := n])
  }

  function Unlisted(s: PoolState, key: Key): PoolState {
    s.(disabled := s.disabled - {KeyHash(key)})
  }

  // ----- agreement, apart from one key -----

  ghost predicate AgreeBut(s: PoolState, key: Key) {
    && (forall k :: k != key && IsDisabledKey(s, k) ==>
         KeyHash(k) in s.disabled && s.disabled[KeyHash(k)] == s.failures[k].recheckFailures)
    && (forall e :: e in s.proxies && e.key != key && KeyHash(e.key) in s.disabled ==> IsDisabledKey(s, e.key))
  }

  ghost predicate OwnAgrees(s: PoolState, key: Key) {
    && (IsDisabledKey(s, key) ==>
         KeyHash(key) in s.disabled && s.disabled[KeyHash(key)] == s.failures[key].recheckFailures)
    && (key in Keys(s.proxies) && KeyHash(key) in s.disabled ==> IsDisabledKey(s, key))
  }

  lemma AgreeSplit(s: PoolState, key: Key)
    ensures ViewsAgree(s) <==> AgreeBut(s, key) && OwnAgrees(s, key)
  {
    if AgreeBut(s, key) && OwnAgrees(s, key) {
      forall k | k in s.failures && s.failures[k].disabled
        ensures KeyHash(k) in s.disabled && s.disabled[KeyHash(k)] == s.failures[k].recheckFailures
      {
        assert IsDisabledKey(s, k);
      }
    }
    if ViewsAgree(s) && key in Keys(s.proxies) {
      var e :| e in s.proxies && e.key == key;
    }
  }

  /** The record and the listing of `key` do not matter to the others. */
  lemma ButIgnores(s: PoolState, t: PoolState, key: Key)
    requires t == s.(failures := t.failures, disabled := t.disabled)
    requires forall k :: k != key ==> Lookup(s, k) == Lookup(t, k)
    requires forall k :: k != key ==> (KeyHash(k) in s.disabled <==> KeyHash(k) in t.disabled)
    requires forall k :: k != key && KeyHash(k) in s.disabled ==> s.disabled[KeyHash(k)] == t.disabled[KeyHash(k)]
    requires AgreeBut(s, key)
    ensures AgreeBut(t, key)
  {
    forall k | k != key
      ensures IsDisabledKey(s, k) <==> IsDisabledKey(t, k)
      ensures IsDisabledKey(s, k) ==> s.failures[k] == t.failures[k]
    {
      assert Lookup(s, k) == Lookup(t, k);
    }
  }

  lemma MergeKeepsOthers(policy: Policy, s: PoolState, entries: seq<ProxyEntry>, key: Key)
    requires AgreeBut(s, key)
    ensures AgreeBut(Merge(policy, s, entries), key)
  {
    var t := Merge(policy, s, entries);
    FreshKeys(Keys(s.proxies), s.retired, entries);
    forall k
      ensures k != key && IsDisabledKey(t, k) ==>
        KeyHash(k) in t.disabled && t.disabled[KeyHash(k)] == t.failures[k].recheckFailures
      ensures k != key && k in Keys(t.proxies) && KeyHash(k) in t.disabled ==> IsDisabledKey(t, k)
    {
      MergeRecord(policy, s, entries, k);
      if k != key && k in Keys(s.proxies) {
        var e :| e in s.proxies && e.key == k;
        assert KeyHash(e.key) in s.disabled ==> IsDisabledKey(s, e.key);
      }
    }
    forall e | e in t.proxies && e.key != key && KeyHash(e.key) in t.disabled
      ensures IsDisabledKey(t, e.key)
    {
      assert e.key in Keys(t.proxies);
    }
  }

  /** Every operation keeps the agreement of the other keys, whatever the state of `key`. */
  lemma OthersKept(lib: Library, policy: Policy, s: PoolState, op: Op, key: Key)
    requires AgreeBut(s, key)
    ensures AgreeBut(Apply(lib, policy, s, op), key)
  {
    match op
    case Merging(nodes) => MergeKeepsOthers(policy, s, Entries(lib, nodes), key);
    case RecheckFailed(k) => WithoutMembers(s.proxies, k);
    case _ =>
  }

  // ----- what a pending entry asks of its key -----

  /** The part of a key in the agreement to come. */
  ghost predicate OwnOnce(s: PoolState, key: Key, entry: Option<nat>) {
    match entry
    case Some(n) =>
      && (IsDisabledKey(s, key) ==> s.failures[key].recheckFailures == n)
      && (key in Keys(s.proxies) ==> IsDisabledKey(s, key))
    case None => !IsDisabledKey(s, key)
  }

  /** Operations of others that do no harm while `key` is still to be listed with the count n. */
  ghost predicate HarmlessListing(lib: Library, policy: Policy, s: PoolState, key: Key, n: nat, op: Op) {
    match op
    case Succeeded(k) => k != key || key !in Keys(s.proxies)
    case RecheckSucceeded(k) => k != key || key !in Keys(s.proxies)
    case RecheckFailed(k) => k != key || !IsDisabledKey(s, key) || n + 1 >= RECHECK_LIMIT
    case Replacing(nodes) => key !in Keys(Entries(lib, nodes))
    case Merging(nodes) =>
      key in Keys(Fresh(Keys(s.proxies), s.retired, Entries(lib, nodes))) ==>
        if KeyHash(key) in s.disabled then s.disabled[KeyHash(key)] == n else IsDisabledKey(s, key)
    case Failing(k, now) => k != key || !NewlyDisabled(policy, s, key, now) || n == 0
    case Scanned(_, _) => true
  }

  /** Operations of others that do no harm while `key` is still to be taken off the list: all that do not
      disable it once more. */
  ghost predicate HarmlessUnlisting(lib: Library, policy: Policy, s: PoolState, key: Key, op: Op) {
    match op
    case Merging(nodes) =>
      key !in Keys(Fresh(Keys(s.proxies), s.retired, Entries(lib, nodes))) || KeyHash(key) !in s.disabled
    case Failing(k, now) => k != key || !NewlyDisabled(policy, s, key, now)
    case _ => true
  }

  ghost predicate Harmless(lib: Library, policy: Policy, s: PoolState, key: Key, entry: Option<nat>, op: Op) {
    match entry
    case Some(n) => HarmlessListing(lib, policy, s, key, n, op)
    case None => HarmlessUnlisting(lib, policy, s, key, op)
  }

  lemma RemovedKey(s: PoolState, checked: Key, key: Key)
    ensures key in Keys(Without(s.proxies, checked)) <==> key in Keys(s.proxies) && key != checked
  {
    WithoutMembers(s.proxies, checked);
    if e :| e in s.proxies && e.key == key && key != checked {
      assert e in Without(s.proxies, checked);
    }
  }

  /** An operation keeps what a pending entry asks of its key exactly if it is harmless. */
  lemma OwnExactly(lib: Library, policy: Policy, s: PoolState, op: Op, key: Key, entry: Option<nat>)
    requires OwnOnce(s, key, entry)
    ensures OwnOnce(Apply(lib, policy, s, op), key, entry) <==> Harmless(lib, policy, s, key, entry, op)
  {
    match op
    case Merging(nodes) =>
      MergeRecord(policy, s, Entries(lib, nodes), key);
      FreshKeys(Keys(s.proxies), s.retired, Entries(lib, nodes));
    case RecheckFailed(k) => RemovedKey(s, k, key);
    case _ =>
  }

  // ----- an entry still to be listed -----

  ghost predicate AgreesOnceListed(s: PoolState, key: Key, n: nat) {
    ViewsAgree(Listed(s, key, n))
  }

  lemma OnceListed(s: PoolState, key: Key, n: nat)
    ensures AgreesOnceListed(s, key, n) <==> AgreeBut(s, key) && OwnOnce(s, key, Some(n))
  {
    var t := Listed(s, key, n);
    AgreeSplit(t, key);
    if AgreeBut(t, key) {
      ButIgnores(t, s, key);
    }
    if AgreeBut(s, key) {
      ButIgnores(s, t, key);
    }
  }

  /** While an entry is to be listed, an operation keeps the coming agreement exactly if it is harmless. */
  lemma ListingExactly(lib: Library, policy: Policy, s: PoolState, key: Key, n: nat, op: Op)
    requires AgreesOnceListed(s, key, n)
    ensures AgreesOnceListed(Apply(lib, policy, s, op), key, n) <==> HarmlessListing(lib, policy, s, key, n, op)
  {
    OnceListed(s, key, n);
    OnceListed(Apply(lib, policy, s, op), key, n);
    OthersKept(lib, policy, s, op, key);
    OwnExactly(lib, policy, s, op, key, Some(n));
  }

  // ----- an entry still to be taken off the list -----

  ghost predicate AgreesOnceUnlisted(s: PoolState, key: Key) {
    ViewsAgree(Unlisted(s, key))
  }

  ghost predicate AgreesOnceRetired(s: PoolState, key: Key) {
    ViewsAgree(Retire(s, key))
  }

  lemma OnceUnlisted(s: PoolState, key: Key)
    ensures AgreesOnceUnlisted(s, key) <==> AgreeBut(s, key) && OwnOnce(s, key, None)
  {
    var t := Unlisted(s, key);
    AgreeSplit(t, key);
    if AgreeBut(t, key) {
      ButIgnores(t, s, key);
    }
    if AgreeBut(s, key) {
      ButIgnores(s, t, key);
    }
  }

  lemma OnceRetired(s: PoolState, key: Key)
    ensures AgreesOnceRetired(s, key) <==> AgreesOnceUnlisted(s, key)
  {
    var t := Retire(s, key);
    WithoutMembers(s.proxies, key);
    OnceUnlisted(s, key);
    AgreeSplit(t, key);
    if AgreeBut(t, key) {
      assert forall k :: IsDisabledKey(t, k) == IsDisabledKey(s, k);
      forall e | e in s.proxies && e.key != key && KeyHash(e.key) in s.disabled
        ensures IsDisabledKey(s, e.key)
      {
        assert e in t.proxies;
      }
    }
  }

  /** While an entry is to be taken off the list, an operation keeps the coming agreement exactly if it is
      harmless; whether the key is retired on that occasion makes no difference. */
  lemma UnlistingExactly(lib: Library, policy: Policy, s: PoolState, key: Key, op: Op)
    requires AgreesOnceUnlisted(s, key)
    ensures AgreesOnceUnlisted(Apply(lib, policy, s, op), key) <==> HarmlessUnlisting(lib, policy, s, key, op)
    ensures AgreesOnceRetired(Apply(lib, policy, s, op), key) <==> HarmlessUnlisting(lib, policy, s, key, op)
  {
    OnceUnlisted(s, key);
    OnceUnlisted(Apply(lib, policy, s, op), key);
    OnceRetired(Apply(lib, policy, s, op), key);
    OthersKept(lib, policy, s, op, key);
    OwnExactly(lib, policy, s, op, key, None);
  }

  // ----- a failure report that disables -----

  /** What harmless means right after the record was disabled, in terms of the pool before the report. */
  ghost predicate HarmlessAtReport(lib: Library, s: PoolState, key: Key, op: Op) {
    match op
    case Succeeded(k) => k != key || key !in Keys(s.proxies)
    case RecheckSucceeded(k) => k != key || key !in Keys(s.proxies)
    case RecheckFailed(k) => k != key
    case Replacing(nodes) => key !in Keys(Entries(lib, nodes))
    case Merging(nodes) =>
      !(key in Keys(Fresh(Keys(s.proxies), s.retired, Entries(lib, nodes)))
        && KeyHash(key) in s.disabled && s.disabled[KeyHash(key)] != 0)
    case Failing(_, _) => true
    case Scanned(_, _) => true
  }

  lemma ReportPending(lib: Library, policy: Policy, s: PoolState, key: Key, now: nat)
    requires Valid(lib, s) && NewlyDisabled(policy, s, key, now)
    ensures Listed(FailureRecorded(policy, s, key, now), key, 0) == Failure(policy, s, key, now)
    ensures AgreesOnceListed(FailureRecorded(policy, s, key, now), key, 0)
  {
    ApplyValid(lib, policy, s, Failing(key, now));
  }

  /** A report that disables a key, active or not, leaves the views agreeing exactly if the operation between
      its two locks is harmless; with nothing in between it is the whole operation. */
  lemma AgreementBetweenLocks(lib: Library, policy: Policy, s: PoolState, key: Key, now: nat, op: Op)
    requires Valid(lib, s) && NewlyDisabled(policy, s, key, now)
    ensures Listed(FailureRecorded(policy, s, key, now), key, 0) == Failure(policy, s, key, now)
    ensures ViewsAgree(Listed(Apply(lib, policy, FailureRecorded(policy, s, key, now), op), key, 0)) <==>
      HarmlessAtReport(lib, s, key, op)
  {
    ReportPending(lib, policy, s, key, now);
    ListingExactly(lib, policy, FailureRecorded(policy, s, key, now), key, 0, op);
  }

  /** Any number of operations may come between the two locks as long as each is harmless where it comes. */
  lemma {:induction false} AgreementSurvives(
      lib: Library, policy: Policy, s: PoolState, key: Key, now: nat, ops: seq<Op>)
    requires Valid(lib, s) && NewlyDisabled(policy, s, key, now)
    requires var recorded := FailureRecorded(policy, s, key, now);
      forall i :: 0 <= i < |ops| ==>
        HarmlessListing(lib, policy, ApplyAll(lib, policy, recorded, ops[..i]), key, 0, ops[i])
    ensures ViewsAgree(Listed(ApplyAll(lib, policy, FailureRecorded(policy, s, key, now), ops), key, 0))
  {
    if ops == [] {
      ReportPending(lib, policy, s, key, now);
    } else {
      var init := ops[..|ops| - 1];
      assert forall i :: 0 <= i < |init| ==> init[..i] == ops[..i] && init[i] == ops[i];
      AgreementSurvives(lib, policy, s, key, now, init);
      var before := ApplyAll(lib, policy, FailureRecorded(policy, s, key, now), init);
      ListingExactly(lib, policy, before, key, 0, ops[|ops| - 1]);
    }
  }

  /** The pending key is disabled with no failed recheck, and no merge can bring another count back. */
  ghost predicate Steady(s: PoolState, key: Key) {
    && AgreesOnceListed(s, key, 0) && IsDisabledKey(s, key)
    && (key in Keys(s.proxies) || (KeyHash(key) in s.disabled ==> s.disabled[KeyHash(key)] == 0))
  }

  lemma SteadyStep(lib: Library, policy: Policy, s: PoolState, key: Key, op: Op)
    requires Steady(s, key) && NoVerdict(op, key)
    ensures Steady(Apply(lib, policy, s, op), key)
  {
    ListingExactly(lib, policy, s, key, 0, op);
    match op
    case Merging(nodes) =>
      MergeRecord(policy, s, Entries(lib, nodes), key);
      FreshKeys(Keys(s.proxies), s.retired, Entries(lib, nodes));
    case RecheckFailed(k) => RemovedKey(s, k, key);
    case _ =>
  }

  lemma {:induction false} SteadyRun(
      lib: Library, policy: Policy, s: PoolState, key: Key, ops: seq<Op>)
    requires Steady(s, key) && forall op :: op in ops ==> NoVerdict(op, key)
    ensures Steady(ApplyAll(lib, policy, s, ops), key)
  {
    if ops != [] {
      var init := ops[..|ops| - 1];
      assert ops[|ops| - 1] in ops && forall op :: op in init ==> op in ops;
      SteadyRun(lib, policy, s, key, init);
      SteadyStep(lib, policy, ApplyAll(lib, policy, s, init), key, ops[|ops| - 1]);
    }
  }

  /** Known before the report: if the key is active, or is not listed with failed rechecks, then any operations
      at all between the locks leave the views agreeing, short of a success or a recheck of the key and of a
      replacement. */
  lemma AgreementKept(lib: Library, policy: Policy, s: PoolState, key: Key, now: nat, ops: seq<Op>)
    requires Valid(lib, s) && NewlyDisabled(policy, s, key, now)
    requires key in Keys(s.proxies) || (KeyHash(key) in s.disabled ==> s.disabled[KeyHash(key)] == 0)
    requires forall op :: op in ops ==> NoVerdict(op, key)
    ensures ViewsAgree(Listed(ApplyAll(lib, policy, FailureRecorded(policy, s, key, now), ops), key, 0))
  {
    ReportPending(lib, policy, s, key, now);
    SteadyRun(lib, policy, FailureRecorded(policy, s, key, now), key, ops);
  }

  lemma TwoOps(lib: Library, policy: Policy, s: PoolState, a: Op, b: Op)
    ensures ApplyAll(lib, policy, s, [a, b]) == Apply(lib, policy, Apply(lib, policy, s, a), b)
  {
    var none: seq<Op> := [];
    assert [a][..0] == none;
    assert ApplyAll(lib, policy, s, [a]) == Apply(lib, policy, ApplyAll(lib, policy, s, none), a);
    assert [a, b][..1] == [a];
  }

  lemma MergeOne(lib: Library, policy: Policy, s: PoolState, node: ProxyNode, key: Key)
    requires NodeKey(lib, node) == key && key !in Keys(s.proxies) && KeyHash(key) !in s.retired
    ensures key in Keys(Merge(policy, s, Entries(lib, [node])).proxies)
  {
    var entries := Entries(lib, [node]);
    FreshKeys(Keys(s.proxies), s.retired, entries);
    assert entries[0] in entries && entries[0].key == key;
    MergeRecord(policy, s, entries, key);
  }

  /** Harm can take two steps: neither a stale success nor an empty replacement harms a pending key that is not
      active, but a merge that brings the key back afterwards makes it active and listed without a record. */
  lemma HarmInTwoSteps(
      lib: Library, policy: Policy, s: PoolState, key: Key, now: nat, node: ProxyNode, first: Op)
    requires Valid(lib, s) && NewlyDisabled(policy, s, key, now) && NodeKey(lib, node) == key
    requires KeyHash(key) !in s.disabled && key !in Keys(s.proxies)
    requires (first == Succeeded(key) && KeyHash(key) !in s.retired) || first == Replacing([])
    ensures HarmlessAtReport(lib, s, key, first) && HarmlessAtReport(lib, s, key, Merging([node]))
    ensures !ViewsAgree(
      Listed(ApplyAll(lib, policy, FailureRecorded(policy, s, key, now), [first, Merging([node])]), key, 0))
  {
    var recorded := FailureRecorded(policy, s, key, now);
    var between := Apply(lib, policy, recorded, first);
    ReportPending(lib, policy, s, key, now);
    ListingExactly(lib, policy, recorded, key, 0, first);
    TwoOps(lib, policy, recorded, first, Merging([node]));
    assert key !in between.failures && KeyHash(key) !in between.disabled && KeyHash(key) !in between.retired;
    MergeOne(lib, policy, between, node, key);
    MergeRecord(policy, between, Entries(lib, [node]), key);
    OnceListed(Apply(lib, policy, between, Merging([node])), key, 0);
  }

  /** The smallest case of harm: a successful recheck of the same active key leaves it listed as disabled
      without a disabled record. */
  lemma AgreementLostBetweenLocks(lib: Library, policy: Policy, s: PoolState, key: Key, now: nat)
    requires Valid(lib, s) && NewlyDisabled(policy, s, key, now) && key in Keys(s.proxies)
    ensures Listed(FailureRecorded(policy, s, key, now), key, 0) == Failure(policy, s, key, now)
    ensures ViewsAgree(Failure(policy, s, key, now))
    ensures !ViewsAgree(Listed(RecheckSuccess(FailureRecorded(policy, s, key, now), key), key, 0))
  {
    ReportPending(lib, policy, s, key, now);
    AgreementBetweenLocks(lib, policy, s, key, now, RecheckSucceeded(key));
  }

  // ----- a success -----

  /** What harmless means right after a record was dropped, in terms of the pool before. */
  ghost predicate HarmlessAtSuccess(lib: Library, policy: Policy, s: PoolState, key: Key, op: Op) {
    match op
    case Merging(nodes) =>
      key !in Keys(Fresh(Keys(s.proxies), s.retired, Entries(lib, nodes))) || KeyHash(key) !in s.disabled
    case Failing(k, _) => k != key || policy.threshold > 1 || policy.disableAfter > 1
    case _ => true
  }

  lemma ClearedPending(s: PoolState, key: Key)
    requires ViewsAgree(s)
    ensures AgreesOnceUnlisted(Cleared(s, key), key)
  {
    AgreeSplit(s, key);
    ButIgnores(s, Cleared(s, key), key);
    OnceUnlisted(Cleared(s, key), key);
  }

  /** A success, or a successful recheck, of a disabled key leaves the views agreeing exactly if the operation
      between its two locks does not disable the key once more: by a merge that finds it listed, or by a
      report where the first already disables. */
  lemma SuccessBetweenLocks(lib: Library, policy: Policy, s: PoolState, key: Key, op: Op)
    requires Valid(lib, s) && key in s.failures && WasDisabled(s.failures[key])
    ensures Unlisted(Cleared(s, key), key) == Success(s, key)
    ensures IsDisabledKey(s, key) ==> Unlisted(Cleared(s, key), key) == RecheckSuccess(s, key)
    ensures ViewsAgree(Unlisted(Apply(lib, policy, Cleared(s, key), op), key)) <==>
      HarmlessAtSuccess(lib, policy, s, key, op)
  {
    ClearedPending(s, key);
    UnlistingExactly(lib, policy, Cleared(s, key), key, op);
  }

  // ----- a failed recheck -----

  /** What harmless means right after the recheck was counted, in terms of the pool before. */
  ghost predicate HarmlessAtRecheck(lib: Library, s: PoolState, key: Key, n: nat, op: Op) {
    match op
    case Succeeded(k) => k != key || key !in Keys(s.proxies)
    case RecheckSucceeded(k) => k != key || key !in Keys(s.proxies)
    case RecheckFailed(k) => k != key || n + 1 >= RECHECK_LIMIT
    case Replacing(nodes) => key !in Keys(Entries(lib, nodes))
    case Merging(nodes) => key !in Keys(Fresh(Keys(s.proxies), s.retired, Entries(lib, nodes)))
    case Failing(_, _) => true
    case Scanned(_, _) => true
  }

  /** A failed recheck that leaves the key disabled keeps the views agreeing exactly if the operation between
      its two locks is harmless. */
  lemma FailedRecheckBetweenLocks(lib: Library, policy: Policy, s: PoolState, key: Key, n: nat, op: Op)
    requires Valid(lib, s) && RecheckVerdict(s, key) == StillDisabled(n)
    ensures Listed(Recounted(s, key, n), key, n) == RecheckFailure(s, key)
    ensures ViewsAgree(Listed(Apply(lib, policy, Recounted(s, key, n), op), key, n)) <==>
      HarmlessAtRecheck(lib, s, key, n, op)
  {
    ApplyValid(lib, policy, s, RecheckFailed(key));
    ListingExactly(lib, policy, Recounted(s, key, n), key, n, op);
  }

  /** The third failed recheck counts, drops the record, and retires the key, each under a lock of its own. An
      operation between the first two never harms the agreement. */
  lemma FirstGapHarmless(lib: Library, policy: Policy, s: PoolState, key: Key, n: nat, op: Op)
    requires Valid(lib, s) && RecheckVerdict(s, key) == Removed(n)
    ensures ViewsAgree(Retire(Cleared(Apply(lib, policy, Recounted(s, key, n), op), key), key))
  {
    var counted := Recounted(s, key, n);
    AgreeSplit(s, key);
    ButIgnores(s, counted, key);
    OthersKept(lib, policy, counted, op, key);
    var t := Apply(lib, policy, counted, op);
    ButIgnores(t, Cleared(t, key), key);
    OnceUnlisted(Cleared(t, key), key);
    OnceRetired(Cleared(t, key), key);
  }

  /** An operation between the last two harms it exactly like one in the gap of a success. */
  lemma ThirdRecheckBetweenLocks(lib: Library, policy: Policy, s: PoolState, key: Key, n: nat, op: Op)
    requires Valid(lib, s) && RecheckVerdict(s, key) == Removed(n)
    ensures Retire(Cleared(Recounted(s, key, n), key), key) == RecheckFailure(s, key)
    ensures ViewsAgree(Retire(Apply(lib, policy, Cleared(Recounted(s, key, n), key), op), key)) <==>
      HarmlessAtSuccess(lib, policy, s, key, op)
  {
    assert Cleared(Recounted(s, key, n), key) == Cleared(s, key);
    ClearedPending(s, key);
    UnlistingExactly(lib, policy, Cleared(s, key), key, op);
  }

  /** A success that comes in either gap is too late: the key is retired all the same, while the same success
      before the recheck keeps an active key. */
  lemma LateSuccessRetires(lib: Library, policy: Policy, s: PoolState, key: Key, n: nat, op: Op)
    requires Valid(lib, s) && RecheckVerdict(s, key) == Removed(n) && key in Keys(s.proxies)
    requires op == Succeeded(key) || op == RecheckSucceeded(key)
    ensures var first := Retire(Cleared(Apply(lib, policy, Recounted(s, key, n), op), key), key);
      KeyHash(key) in first.retired && key !in Keys(first.proxies)
    ensures var second := Retire(Apply(lib, policy, Cleared(Recounted(s, key, n), key), op), key);
      KeyHash(key) in second.retired && key !in Keys(second.proxies)
    ensures var inTime := RecheckFailure(Apply(lib, policy, s, op), key);
      KeyHash(key) !in inTime.retired && key in Keys(inTime.proxies)
  {
    RemovedKey(s, key, key);
    var e :| e in s.proxies && e.key == key;
    assert !Retired(s.retired, e);
  }

  // ----- many reports at once -----

  /** What a report still has to write for its key: a count to list, or None to take the key off the list. */
  type Pending = map<Key, Option<nat>>

  /** The pool once every pending entry is written. */
  function Settle(s: PoolState, pending: Pending): PoolState {
    var keys := set k | k in pending && pending[k].Some? :: KeyHash(k);
    s.(disabled := map h | h in s.disabled.Keys + keys && (h.key in pending ==> pending[h.key].Some?) ::
      if h.key in pending then pending[h.key].value else s.disabled[h])
  }

  ghost predicate OwnIn(s: PoolState, pending: Pending, key: Key) {
    if key in pending then OwnOnce(s, key, pending[key]) else OwnAgrees(s, key)
  }

  lemma AgreeEach(s: PoolState)
    ensures ViewsAgree(s) <==> forall key :: OwnAgrees(s, key)
  {
    if ViewsAgree(s) {
      forall key
        ensures OwnAgrees(s, key)
      {
        AgreeSplit(s, key);
      }
    } else if forall key :: OwnAgrees(s, key) {
      forall k | k in s.failures && s.failures[k].disabled
        ensures KeyHash(k) in s.disabled && s.disabled[KeyHash(k)] == s.failures[k].recheckFailures
      {
        assert OwnAgrees(s, k);
      }
      forall e | e in s.proxies && KeyHash(e.key) in s.disabled
        ensures IsDisabledKey(s, e.key)
      {
        assert OwnAgrees(s, e.key);
      }
    }
  }

  lemma SettledOwn(s: PoolState, pending: Pending, key: Key)
    ensures OwnAgrees(Settle(s, pending), key) <==> OwnIn(s, pending, key)
  {
  }

  /** The keys settle the coming agreement one by one. */
  lemma SettledExactly(s: PoolState, pending: Pending)
    ensures ViewsAgree(Settle(s, pending)) <==> forall key :: OwnIn(s, pending, key)
  {
    AgreeEach(Settle(s, pending));
    forall key
      ensures OwnAgrees(Settle(s, pending), key) <==> OwnIn(s, pending, key)
    {
      SettledOwn(s, pending, key);
    }
  }

  lemma OwnKept(lib: Library, policy: Policy, s: PoolState, op: Op, key: Key)
    requires OwnAgrees(s, key)
    ensures OwnAgrees(Apply(lib, policy, s, op), key)
  {
    match op
    case Merging(nodes) =>
      MergeRecord(policy, s, Entries(lib, nodes), key);
      FreshKeys(Keys(s.proxies), s.retired, Entries(lib, nodes));
    case RecheckFailed(k) => RemovedKey(s, k, key);
    case _ =>
  }

  /** With any number of reports on different keys between their locks, an operation keeps the agreement to come
      exactly if it is harmless to each of them. */
  lemma ManyPending(lib: Library, policy: Policy, s: PoolState, pending: Pending, op: Op)
    requires ViewsAgree(Settle(s, pending))
    ensures ViewsAgree(Settle(Apply(lib, policy, s, op), pending)) <==>
      forall key :: key in pending ==> Harmless(lib, policy, s, key, pending[key], op)
  {
    var t := Apply(lib, policy, s, op);
    SettledExactly(s, pending);
    SettledExactly(t, pending);
    forall key
      ensures OwnIn(t, pending, key) <==> key !in pending || Harmless(lib, policy, s, key, pending[key], op)
    {
      assert OwnIn(s, pending, key);
      if key in pending {
        OwnExactly(lib, policy, s, op, key, pending[key]);
      } else {
        OwnKept(lib, policy, s, op, key);
      }
    }
  }

  /** The record of one key changes, and its entry becomes pending: the other keys see nothing of it. */
  lemma Begun(s: PoolState, t: PoolState, pending: Pending, key: Key, entry: Option<nat>)
    requires ViewsAgree(Settle(s, pending)) && t == s.(failures := t.failures) && OwnOnce(t, key, entry)
    requires forall k :: k != key ==> Lookup(s, k) == Lookup(t, k)
    ensures ViewsAgree(Settle(t, pending[key := entry]))
  {
    var after := pending[key := entry];
    SettledExactly(s, pending);
    SettledExactly(t, after);
    forall k
      ensures OwnIn(t, after, k)
    {
      assert OwnIn(s, pending, k) && (k != key ==> Lookup(s, k) == Lookup(t, k));
    }
  }

  /** The first half of any report on a key that has none pending keeps the agreement to come. */
  lemma ReportsBegin(policy: Policy, s: PoolState, pending: Pending, key: Key, now: nat)
    requires ViewsAgree(Settle(s, pending)) && key !in pending
    ensures NewlyDisabled(policy, s, key, now) ==>
      ViewsAgree(Settle(FailureRecorded(policy, s, key, now), pending[key := Some(0)]))
    ensures ViewsAgree(Settle(Cleared(s, key), pending[key := None]))
    ensures RecheckVerdict(s, key).StillDisabled? ==>
      var n := RecheckVerdict(s, key).failures; ViewsAgree(Settle(Recounted(s, key, n), pending[key := Some(n)]))
  {
    SettledExactly(s, pending);
    assert OwnIn(s, pending, key);
    Begun(s, Cleared(s, key), pending, key, None);
    if NewlyDisabled(policy, s, key, now) {
      Begun(s, FailureRecorded(policy, s, key, now), pending, key, Some(0));
    }
    if RecheckVerdict(s, key).StillDisabled? {
      var n := RecheckVerdict(s, key).failures;
      Begun(s, Recounted(s, key, n), pending, key, Some(n));
    }
  }

  lemma SettledAt(s: PoolState, pending: Pending, h: KeyHash)
    ensures var t := Settle(s, pending);
      && (h in t.disabled <==> if h.key in pending then pending[h.key].Some? else h in s.disabled)
      && (h in t.disabled ==> t.disabled[h] == if h.key in pending then pending[h.key].value else s.disabled[h])
  {
    assert h == KeyHash(h.key);
  }

  lemma SameOnceSettled(s: PoolState, t: PoolState, pending: Pending, rest: Pending)
    requires t == s.(disabled := t.disabled)
    requires forall h: KeyHash ::
      (if h.key in pending then pending[h.key] else if h in s.disabled then Some(s.disabled[h]) else None)
      == (if h.key in rest then rest[h.key] else if h in t.disabled then Some(t.disabled[h]) else None)
    ensures Settle(s, pending) == Settle(t, rest)
  {
    forall h
      ensures h in Settle(s, pending).disabled <==> h in Settle(t, rest).disabled
      ensures h in Settle(s, pending).disabled ==> Settle(s, pending).disabled[h] == Settle(t, rest).disabled[h]
    {
      SettledAt(s, pending, h);
      SettledAt(t, rest, h);
    }
  }

  /** The second half of a report writes what was pending. */
  lemma ReportsEnd(s: PoolState, pending: Pending, key: Key)
    requires key in pending
    ensures match pending[key]
      case Some(n) => Settle(s, pending) == Settle(Listed(s, key, n), pending - {key})
      case None => Settle(s, pending) == Settle(Unlisted(s, key), pending - {key})
  {
    match pending[key]
    case Some(n) => SameOnceSettled(s, Listed(s, key, n), pending, pending - {key});
    case None => SameOnceSettled(s, Unlisted(s, key), pending, pending - {key});
  }

  lemma RetiredOwn(s: PoolState, pending: Pending, key: Key, k: Key)
    requires OwnIn(s, pending, k) && key in pending && pending[key].None?
    ensures OwnIn(Retire(s, key), pending - {key}, k)
  {
    RemovedKey(s, key, k);
  }

  /** Retiring a key may take the place of taking it off the list. */
  lemma RetirementEnds(s: PoolState, pending: Pending, key: Key)
    requires ViewsAgree(Settle(s, pending)) && key in pending && pending[key].None?
    ensures ViewsAgree(Settle(Retire(s, key), pending - {key}))
  {
    var rest, t := pending - {key}, Retire(s, key);
    SettledExactly(s, pending);
    SettledExactly(t, rest);
    forall k
      ensures OwnIn(t, rest, k)
    {
      assert OwnIn(s, pending, k);
      RetiredOwn(s, pending, key, k);
    }
  }
}
