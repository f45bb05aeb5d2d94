/** The shared proxy pool, its state file, and the per-request iterator, updated in place one
    operation at a time (src/proxy.rs). */
module ProxyPools {
  import opened Prelude
  import opened SelectionBags
  import opened FailureRecords
  import opened ProxyNodes
  import opened PoolStates
  import opened PoolRuns

  /** The state file's record; the order of the disabled and retired lists carries no meaning. */
  datatype PersistedPoolState = PersistedPoolState(
    version: nat, available: seq<PersistedNode>, disabled: seq<(KeyHash, nat)>, retired: seq<KeyHash>)

  datatype FileContent = Missing | Unreadable | Image(state: PersistedPoolState)

  class StateFile {
    var content: FileContent

    constructor (content: FileContent)
      ensures this.content == content
    {
      this.content := content;
    }
  }

  /** Later entries win, as when a list is collected into a hash map. */
  function DisabledMap(listed: seq<(KeyHash, nat)>): map<KeyHash, nat> {
    if listed == [] then map[]
    else DisabledMap(listed[..|listed| - 1])[listed[|listed| - 1].0 := listed[|listed| - 1].1]
  }

  function Meaning(state: PersistedPoolState): Saved {
    Saved(state.available, DisabledMap(state.disabled), set h | h in state.retired)
  }

  /** What a start-up reads: nothing if the file is missing, unreadable or of an unknown version. */
  function Loaded(content: FileContent): Option<Saved> {
    match content
    case Image(state) => if state.version == 1 || state.version == 2 then Some(Meaning(state)) else None
    case _ => None
  }

  /** Files of version 1 and of version 2 are read, and mean the same; no other file is. */
  lemma BothVersionsRead(state: PersistedPoolState)
    ensures Loaded(Image(state)).Some? <==> state.version in {1, 2}
    ensures Loaded(Image(state.(version := 1))) == Loaded(Image(state.(version := 2))) == Some(Meaning(state))
    ensures Loaded(Missing) == None && Loaded(Unreadable) == None
  {
  }

  /** Of several entries for one key the last one counts. */
  lemma {:induction false} LastEntryCounts(listed: seq<(KeyHash, nat)>, h: KeyHash)
    ensures h in DisabledMap(listed) <==> exists i :: 0 <= i < |listed| && listed[i].0 == h
    ensures forall i :: 0 <= i < |listed| && listed[i].0 == h && (forall j :: i < j < |listed| ==> listed[j].0 != h) ==>
      DisabledMap(listed)[h] == listed[i].1
  {
    if listed != [] {
      LastEntryCounts(listed[..|listed| - 1], h);
      assert forall i :: 0 <= i < |listed| - 1 ==> listed[..|listed| - 1][i] == listed[i];
    }
  }

  lemma DisabledMapAppend(listed: seq<(KeyHash, nat)>, h: KeyHash, n: nat)
    ensures DisabledMap(listed + [(h, n)]) == DisabledMap(listed)[h := n]
  {
    assert (listed + [(h, n)])[..|listed|] == listed;
  }

  method ListDisabled(disabled: map<KeyHash, nat>) returns (listed: seq<(KeyHash, nat)>)
    ensures DisabledMap(listed) == disabled
  {
    listed := [];
    var rest := disabled.Keys;
    while rest != {}
      invariant rest <= disabled.Keys
      invariant DisabledMap(listed) == map h | h in disabled && h !in rest :: disabled[h]
      decreases |rest|
    {
      var h :| h in rest;
      DisabledMapAppend(listed, h, disabled[h]);
      listed := listed + [(h, disabled[h])];
      rest := rest - {h};
    }
  }

  method ListRetired(retired: set<KeyHash>) returns (listed: seq<KeyHash>)
    ensures (set h | h in listed) == retired
  {
    listed := [];
    var rest := retired;
    while rest != {}
      invariant (set h | h in listed) + rest == retired
      decreases |rest|
    {
      var h :| h in rest;
      listed := listed + [h];
      rest := rest - {h};
    }
  }

  method PersistEntries(entries: seq<ProxyEntry>) returns (saved: seq<PersistedNode>)
    ensures saved == PersistAll(entries)
  {
    saved := [];
    for i := 0 to |entries|
      invariant saved == PersistAll(entries[..i])
    {
      assert entries[..i + 1][..i] == entries[..i];
      var p := Persist(entries[i].node);
      if p.Some? {
        saved := saved + [p.value];
      }
    }
    assert entries[..|entries|] == entries;
  }

  method RestoreNodes(lib: Library, saved: seq<PersistedNode>) returns (nodes: seq<ProxyNode>)
    ensures nodes == RestoreAll(lib, saved)
  {
    nodes := [];
    for i := 0 to |saved|
      invariant nodes == RestoreAll(lib, saved[..i])
    {
      assert saved[..i + 1][..i] == saved[..i];
      var n := Restore(lib, saved[i]);
      if n.Some? {
        nodes := nodes + [n.value];
      }
    }
    assert saved[..|saved|] == saved;
  }

  /** Keeps the first entry of each key that is not retired. */
  method RetainNew(retired: set<KeyHash>, entries: seq<ProxyEntry>) returns (active: seq<ProxyEntry>)
    ensures active == Fresh({}, retired, entries)
  {
    active := [];
    var known: set<Key> := {};
    for i := 0 to |entries|
      invariant active == Fresh({}, retired, entries[..i])
      invariant known == Keys(active)
    {
      assert entries[..i + 1][..i] == entries[..i];
      var e := entries[i];
      if KeyHash(e.key) !in retired && e.key !in known {
        known := known + {e.key};
        active := active + [e];
      }
    }
    assert entries[..|entries|] == entries;
  }

  /** The removal loop; its result is shorter exactly if the key was there. */
  method Retained(entries: seq<ProxyEntry>, key: Key) returns (retained: seq<ProxyEntry>)
    ensures retained == Without(entries, key)
    ensures |retained| == |entries| <==> key !in Keys(entries)
    ensures |retained| == |entries| ==> retained == entries
  {
    retained := [];
    for i := 0 to |entries|
      invariant retained == Without(entries[..i], key)
      invariant |retained| <= i && (|retained| == i <==> key !in Keys(entries[..i]))
      invariant |retained| == i ==> retained == entries[..i]
    {
      assert entries[..i + 1][..i] == entries[..i];
      assert entries[..i + 1] == entries[..i] + [entries[i]];
      assert Keys(entries[..i + 1]) == Keys(entries[..i]) + {entries[i].key};
      if entries[i].key != key {
        retained := retained + [entries[i]];
      }
    }
    assert entries[..|entries|] == entries;
  }

  /** Marking one more listed key as disabled. */
  lemma KnownDisabledAdd(
      policy: Policy, disabled: map<KeyHash, nat>, failures: map<Key, FailureRecord>, keys: set<Key>, key: Key)
    ensures failures + KnownDisabled(policy, disabled, keys + {key}) ==
      var before := failures + KnownDisabled(policy, disabled, keys);
      if KeyHash(key) in disabled then before[key := DisabledRecord(policy, disabled[KeyHash(key)])] else before
  {
  }

  /** The record's cooldown still runs. */
  predicate CoolsAt(r: FailureRecord, now: nat) {
    r.cooldownUntil.Some? && now < r.cooldownUntil.value
  }

  /** Neither disabled nor cooling. */
  predicate FreeAt(failures: map<Key, FailureRecord>, key: Key, now: nat) {
    key in failures ==> !failures[key].disabled && !CoolsAt(failures[key], now)
  }

  lemma UsableIsFree(s: PoolState, e: ProxyEntry, tried: set<Key>, now: nat)
    ensures Usable(s, e, tried, now) <==> e.key !in tried && FreeAt(s.failures, e.key, now)
  {
  }

  /** An entry a request may use next: untried and not blocked at `now`. */
  predicate Usable(s: PoolState, e: ProxyEntry, tried: set<Key>, now: nat) {
    e.key !in tried && !Blocked(Lookup(s, e.key), now)
  }

  class ProxyPool {
    const lib: Library
    const policy: Policy
    const persistent: bool
    const bag: SelectionBag
    const stateFile: StateFile
    var proxies: seq<ProxyEntry>
    var retired: set<KeyHash>
    var disabledByHash: map<KeyHash, nat>
    var generation: nat
    var failures: map<Key, FailureRecord>

    function View(): PoolState
      reads this
    {
      PoolState(proxies, retired, disabledByHash, generation, failures)
    }

    /** The bag was filled for this pool or an earlier one, and fits it in the first case. */
    ghost predicate Sound()
      reads this, bag
    {
      bag.generation <= generation && ValidFor(bag.Value(), generation, |proxies|)
    }

    constructor (lib: Library, nodes: seq<ProxyNode>, maxRetries: nat, threshold: nat, cooldown: nat, disableAfter: nat,
                 persistent: bool, stateFile: StateFile)
      modifies stateFile
      ensures this.lib == lib && this.policy == NewPolicy(maxRetries, threshold, disableAfter, cooldown)
      ensures policy.maxRetries == maxRetries && policy.cooldown == cooldown
      ensures threshold >= 1 ==> policy.threshold == threshold
      ensures disableAfter >= 1 ==> policy.disableAfter == disableAfter
      ensures threshold == 0 ==> policy.threshold == 1
      ensures disableAfter == 0 ==> policy.disableAfter == 1
      ensures this.persistent == persistent && this.stateFile == stateFile && fresh(bag)
      ensures Sound()
      ensures var loaded := if persistent then old(Loaded(stateFile.content)) else None;
        View() == Start(lib, policy, if loaded.Some? then loaded.value else NOTHING_SAVED, nodes)
      ensures if persistent then Loaded(stateFile.content) == Some(SavedOf(View()))
              else stateFile.content == old(stateFile.content)
    {
      var saved := NOTHING_SAVED;
      if persistent && Loaded(stateFile.content).Some? {
        saved := Loaded(stateFile.content).value;
      }
      var restored := RestoreNodes(lib, saved.available);
      var active := RetainNew(saved.retired, Entries(lib, restored) + Entries(lib, nodes));
      this.lib, this.policy := lib, NewPolicy(maxRetries, threshold, disableAfter, cooldown);
      this.persistent, this.stateFile := persistent, stateFile;
      proxies, retired, disabledByHash, generation, failures := active, saved.retired, saved.disabled, 0, map[];
      bag := new SelectionBag();
      new;
      RestoreFailureRecords();
      PersistState();
    }

    method RestoreFailureRecords()
      requires failures == map[]
      modifies this`failures
      ensures failures == KnownDisabled(policy, disabledByHash, Keys(proxies))
    {
      for i := 0 to |proxies|
        invariant failures == KnownDisabled(policy, disabledByHash, Keys(proxies[..i]))
      {
        var key := proxies[i].key;
        assert proxies[..i + 1] == proxies[..i] + [proxies[i]];
        assert Keys(proxies[..i + 1]) == Keys(proxies[..i]) + {key};
        if KeyHash(key) in disabledByHash {
          failures := failures[key := DisabledRecord(policy, disabledByHash[KeyHash(key)])];
        }
      }
      assert proxies[..|proxies|] == proxies;
    }

    method PersistState()
      modifies stateFile
      ensures if persistent then Loaded(stateFile.content) == Some(SavedOf(View()))
              else stateFile.content == old(stateFile.content)
    {
      if !persistent {
        return;
      }
      var available := PersistEntries(proxies);
      var disabled := ListDisabled(disabledByHash);
      var retiredList := ListRetired(retired);
      stateFile.content := Image(PersistedPoolState(2, available, disabled, retiredList));
    }

    method ReplaceAll(nodes: seq<ProxyNode>)
      requires Sound()
      modifies this, bag, stateFile
      ensures Sound() && bag.Value() == BagValue(generation, [])
      ensures View() == Apply(lib, policy, old(View()), Replacing(nodes))
      ensures retired == {} && disabledByHash == map[] && failures == map[] && |proxies| == |nodes|
      ensures if persistent then Loaded(stateFile.content) == Some(SavedOf(View()))
              else stateFile.content == old(stateFile.content)
    {
      proxies, retired, disabledByHash, generation := Entries(lib, nodes), {}, map[], generation + 1;
      bag.Reset(generation);
      failures := map[];
      PersistState();
    }

    method MergeNodes(nodes: seq<ProxyNode>) returns (summary: MergeSummary)
      requires Sound()
      modifies this, bag, stateFile
      ensures Sound()
      ensures View() == Apply(lib, policy, old(View()), Merging(nodes))
      ensures summary == Summary(old(View()), Entries(lib, nodes))
      ensures bag.Value() == if summary.added > 0 then BagValue(generation, []) else old(bag.Value())
      ensures if persistent then Loaded(stateFile.content) == Some(SavedOf(View()))
              else stateFile.content == old(stateFile.content)
    {
      var entries := Entries(lib, nodes);
      var previous := |proxies|;
      var added, skippedExisting, skippedRetired := CollectNew(entries);
      summary := MergeSummary(previous, |added|, skippedExisting, skippedRetired, previous + |added|);
      if summary.added > 0 {
        proxies, generation := proxies + added, generation + 1;
        bag.Reset(generation);
      } else {
        assert proxies + added == proxies;
      }
      PersistState();
    }

    /** The merge loop: picks the new entries, counts the others, and marks listed keys as disabled. */
    method CollectNew(entries: seq<ProxyEntry>)
        returns (added: seq<ProxyEntry>, skippedExisting: nat, skippedRetired: nat)
      modifies this`failures
      ensures added == Fresh(Keys(proxies), retired, entries)
      ensures skippedRetired == SkippedRetired(retired, entries)
      ensures skippedExisting == SkippedExisting(Keys(proxies), retired, entries)
      ensures failures == old(failures) + KnownDisabled(policy, disabledByHash, Keys(added))
    {
      var known := Keys(proxies);
      added, skippedExisting, skippedRetired := [], 0, 0;
      for i := 0 to |entries|
        invariant added == Fresh(Keys(proxies), retired, entries[..i])
        invariant known == Keys(proxies) + Keys(added)
        invariant failures == old(failures) + KnownDisabled(policy, disabledByHash, Keys(added))
        invariant skippedRetired == SkippedRetired(retired, entries[..i])
        invariant skippedExisting == SkippedExisting(Keys(proxies), retired, entries[..i])
      {
        assert entries[..i + 1][..i] == entries[..i];
        var e := entries[i];
        if KeyHash(e.key) in retired {
          skippedRetired := skippedRetired + 1;
        } else if e.key in known {
          skippedExisting := skippedExisting + 1;
        } else {
          known := known + {e.key};
          KnownDisabledAdd(policy, disabledByHash, old(failures), Keys(added), e.key);
          if KeyHash(e.key) in disabledByHash {
            failures := failures[e.key := DisabledRecord(policy, disabledByHash[KeyHash(e.key)])];
          }
          assert Keys(added + [e]) == Keys(added) + {e.key};
          added := added + [e];
        }
      }
      assert entries[..|entries|] == entries;
    }

    /** The keys that a recheck round starts from. */
    method DisabledProxies() returns (keys: seq<Key>)
      ensures keys == DisabledKeys(proxies, failures)
    {
      keys := [];
      for i := 0 to |proxies|
        invariant keys == DisabledKeys(proxies[..i], failures)
      {
        assert proxies[..i + 1][..i] == proxies[..i];
        var key := proxies[i].key;
        if key in failures && failures[key].disabled {
          keys := keys + [key];
        }
      }
      assert proxies[..|proxies|] == proxies;
    }

    method ReportSuccess(key: Key)
      modifies this`failures, this`disabledByHash, stateFile
      ensures View() == Apply(lib, policy, old(View()), Succeeded(key))
      ensures failures == old(failures) - {key}
      ensures if persistent && Saves(policy, old(View()), Succeeded(key), false)
              then Loaded(stateFile.content) == Some(SavedOf(View()))
              else stateFile.content == old(stateFile.content)
    {
      if key !in failures {
        return;
      }
      var wasDisabled := failures[key].disabled || failures[key].recheckFailures > 0;
      failures := failures - {key};
      if wasDisabled {
        disabledByHash := disabledByHash - {KeyHash(key)};
        PersistState();
      }
    }

    method ReportFailure(key: Key, now: nat)
      modifies this`failures, this`disabledByHash, stateFile
      ensures View() == Apply(lib, policy, old(View()), Failing(key, now))
      ensures if persistent && Saves(policy, old(View()), Failing(key, now), false)
              then Loaded(stateFile.content) == Some(SavedOf(View()))
              else stateFile.content == old(stateFile.content)
    {
      var record := if key in failures then failures[key] else FRESH;
      failures := failures[key := record];
      if record.disabled {
        return;
      }
      if record.cooldownUntil.Some? && record.cooldownUntil.value <= now {
        record := record.(failures := 0, cooldownUntil := None);
      }
      record := record.(failures := record.failures + 1);
      var newlyDisabled := false;
      if record.failures >= policy.threshold {
        record := record.(failures := 0, cooldowns := record.cooldowns + 1);
        if record.cooldowns >= policy.disableAfter {
          record := record.(cooldownUntil := None, disabled := true, recheckFailures := 0);
          newlyDisabled := true;
        } else {
          record := record.(cooldownUntil := Some(now + policy.cooldown));
        }
      }
      failures := failures[key := record];
      if newlyDisabled {
        disabledByHash := disabledByHash[KeyHash(key) := 0];
        PersistState();
      }
    }

    method ReportRecheckSuccess(key: Key, persist: bool) returns (recovered: bool)
      requires Sound()
      modifies this`failures, this`disabledByHash, bag, stateFile
      ensures Sound() && recovered == IsDisabledKey(old(View()), key)
      ensures View() == Apply(lib, policy, old(View()), RecheckSucceeded(key))
      ensures bag.Value() == if recovered then BagValue(generation, []) else old(bag.Value())
      ensures if persistent && Saves(policy, old(View()), RecheckSucceeded(key), !persist)
              then Loaded(stateFile.content) == Some(SavedOf(View()))
              else stateFile.content == old(stateFile.content)
    {
      if key !in failures || !failures[key].disabled {
        return false;
      }
      failures := failures - {key};
      disabledByHash := disabledByHash - {KeyHash(key)};
      if persist {
        PersistState();
      }
      bag.Reset(generation);
      recovered := true;
    }

    method ReportRecheckFailure(key: Key, persist: bool) returns (outcome: RecheckOutcome)
      requires Sound()
      modifies this, bag, stateFile
      ensures Sound() && outcome == RecheckVerdict(old(View()), key)
      ensures outcome == NotDisabled <==> key !in old(failures) || !old(failures)[key].disabled
      ensures outcome.StillDisabled? ==> outcome.failures == old(failures)[key].recheckFailures + 1 < 3
      ensures outcome.Removed? ==> outcome.failures == old(failures)[key].recheckFailures + 1 >= 3
      ensures View() == Apply(lib, policy, old(View()), RecheckFailed(key))
      ensures bag.Value() == if generation != old(generation) then BagValue(generation, []) else old(bag.Value())
      ensures if persistent && Saves(policy, old(View()), RecheckFailed(key), !persist)
              then Loaded(stateFile.content) == Some(SavedOf(View()))
              else stateFile.content == old(stateFile.content)
    {
      if key !in failures || !failures[key].disabled {
        return NotDisabled;
      }
      var count := failures[key].recheckFailures + 1;
      failures := failures[key := failures[key].(recheckFailures := count)];
      if count >= RECHECK_LIMIT {
        failures := failures - {key};
        RemoveAndRetire(key, persist);
        outcome := Removed(count);
        assert failures == old(failures) - {key};
      } else {
        disabledByHash := disabledByHash[KeyHash(key) := count];
        if persist {
          PersistState();
        }
        outcome := StillDisabled(count);
      }
    }

    method RemoveAndRetire(key: Key, persist: bool)
      requires Sound()
      modifies this`proxies, this`retired, this`disabledByHash, this`generation, bag, stateFile
      ensures Sound() && View() == Retire(old(View()), key)
      ensures bag.Value() == if generation != old(generation) then BagValue(generation, []) else old(bag.Value())
      ensures if persistent && persist && key in Keys(old(proxies))
              then Loaded(stateFile.content) == Some(SavedOf(View()))
              else stateFile.content == old(stateFile.content)
    {
      disabledByHash := disabledByHash - {KeyHash(key)};
      retired := retired + {KeyHash(key)};
      var retained := Retained(proxies, key);
      if |retained| == |proxies| {
        return;
      }
      proxies, generation := retained, generation + 1;
      bag.Reset(generation);
      if persist {
        PersistState();
      }
    }

    method IsUnavailable(key: Key, now: nat) returns (blocked: bool)
      modifies this`failures
      ensures blocked == Blocked(Lookup(old(View()), key), now)
      ensures blocked <==> key in old(failures) && (old(failures)[key].disabled || CoolsAt(old(failures)[key], now))
      ensures View() == if blocked then old(View()) else Scan(old(View()), key, now)
    {
      if key !in failures {
        return false;
      }
      var record := failures[key];
      if record.disabled {
        return true;
      }
      if record.cooldownUntil == None {
        return false;
      }
      if record.cooldownUntil.value > now {
        return true;
      }
      failures := failures[key := record.(failures := 0, cooldownUntil := None)];
      blocked := false;
    }

    method Skips(e: ProxyEntry, tried: set<Key>, now: nat) returns (skip: bool)
      modifies this`failures
      ensures skip == !Usable(old(View()), e, tried, now)
      ensures View() == if skip then old(View()) else Scan(old(View()), e.key, now)
    {
      skip := e.key in tried;
      if !skip {
        skip := IsUnavailable(e.key, now);
      }
    }

    /** Draws until an entry is usable; gives up exactly when none is, after at most 2 * len - 1 draws. */
    method NextRandomAvailable(tried: set<Key>, now: nat) returns (r: Option<ProxyEntry>, ghost draws: nat)
      requires Sound()
      modifies this`failures, bag
      ensures Sound()
      ensures r == None <==> forall e :: e in proxies ==> !Usable(old(View()), e, tried, now)
      ensures r.Some? ==> r.value in proxies && Usable(old(View()), r.value, tried, now)
      ensures r.Some? ==> r.value.key !in tried && FreeAt(old(failures), r.value.key, now)
      ensures r == None <==> forall e :: e in proxies && e.key !in tried ==> !FreeAt(old(failures), e.key, now)
      ensures View() == if r.Some? then Scan(old(View()), r.value.key, now) else old(View())
      ensures proxies == [] ==> draws == 0 && bag.Value() == old(bag.Value())
      ensures proxies != [] ==> draws <= 2 * |proxies| - 1
    {
      draws := 0;
      var len := |proxies|;
      ghost var first := View();
      if len == 0 {
        return None, 0;
      }
      ghost var progress := Progress(false, [], 0, LeftOver(bag.Value(), generation));
      var scanned := 0;
      while true
        invariant Sound() && View() == first
        invariant Scanning(bag.Value(), generation, len, progress)
        invariant scanned == progress.Scanned() < len && draws == progress.draws
        invariant NoneUsable(first, progress.round, tried, now)
        decreases 2 * len - draws
      {
        ghost var before, seen := bag.Value(), progress.round;
        var drawn := bag.Next(generation, len);
        var index, refilled := drawn.value.0, drawn.value.1;
        DrawStep(before, generation, len, progress, bag.Value(), index, refilled);
        progress := progress.Advance(refilled, index);
        assert Sound() && View() == first;
        draws := draws + 1;
        if refilled {
          scanned := 0;
        }
        scanned := scanned + 1;
        var entry := proxies[index];
        var skip := Skips(entry, tried, now);
        if !skip {
          assert entry in proxies;
          UsableIsFree(first, entry, tried, now);
          return Some(entry), draws;
        }
        StillNoneUsable(first, seen, index, tried, now);
        if scanned >= len {
          FullScan(first, progress.round, bag.remaining, tried, now);
          return None, draws;
        }
      }
    }
  }

  /** A proxy enters and leaves its cooldown: one failure report and a draw later on. While a cooldown that the
      report began lasts, and once it disabled the key, the draw gives another proxy or none; after the cooldown
      it is held back no longer, so that a pool of this proxy alone gives it. */
  method FailThenDraw(pool: ProxyPool, key: Key, now: nat, t: nat) returns (r: Option<ProxyEntry>)
    requires pool.Sound() && now <= t
    modifies pool`failures, pool`disabledByHash, pool.bag, pool.stateFile
    ensures pool.Sound()
    ensures var before := if key in old(pool.failures) then old(pool.failures)[key] else FRESH;
      var over := before.cooldownUntil.Some? && before.cooldownUntil.value <= now;
      var begins := (if over then 0 else before.failures) + 1 >= pool.policy.threshold;
      var disables := before.disabled || (begins && before.cooldowns + 1 >= pool.policy.disableAfter);
      var cools :=
        if begins then t < now + pool.policy.cooldown
        else before.cooldownUntil.Some? && t < before.cooldownUntil.value;
      && (r.Some? && r.value.key == key ==> !disables && !cools)
      && (!disables && !cools && key in Keys(pool.proxies) && Keys(pool.proxies) == {key} ==>
            r.Some? && r.value.key == key)
  {
    ghost var record := RecordOf(pool.View(), key);
    pool.ReportFailure(key, now);
    if !record.disabled {
      CooldownEnds(pool.policy, record, now);
    }
    assert pool.failures[key] == Failed(pool.policy, record, now);
    var entry, _ := pool.NextRandomAvailable({}, t);
    r := entry;
    if key in Keys(pool.proxies) && Keys(pool.proxies) == {key} {
      var e :| e in pool.proxies && e.key == key;
      assert r.Some? ==> r.value.key in Keys(pool.proxies);
    }
  }

  /** Draws that a bag still has to offer before it is refilled. */
  function LeftOver(b: BagValue, generation: nat): nat {
    if Refills(b, generation) then 0 else |b.remaining|
  }

  /** How far a scan is: on the `left` indices it found in the bag, or, once refilled, inside a round. */
  datatype Progress = Progress(started: bool, round: seq<nat>, draws: nat, left: nat) {
    function Scanned(): nat {
      if started then |round| else draws
    }

    function Advance(refilled: bool, index: nat): Progress {
      var visited := if refilled then [index] else if started then round + [index] else [];
      Progress(started || refilled, visited, draws + 1, left)
    }
  }

  ghost predicate Scanning(b: BagValue, generation: nat, len: nat, p: Progress) {
    && p.left < len
    && (!p.started ==> p.round == [] && p.draws + LeftOver(b, generation) == p.left)
    && (p.started ==> b.generation == generation && p.draws == p.left + |p.round|)
    && (p.started ==> multiset(p.round) + multiset(b.remaining) == Indices(len))
  }

  lemma ScanStep(b: BagValue, generation: nat, len: nat, p: Progress, after: BagValue, index: nat)
    requires Scanning(b, generation, len, p) && p.Scanned() < len
    requires NextIndex(b, generation, len, after, index)
    ensures var q := p.Advance(Refills(b, generation), index);
      && Scanning(after, generation, len, q)
      && q.Scanned() == (if Refills(b, generation) then 1 else p.Scanned() + 1)
      && (q.Scanned() >= len ==> q.started)
  {
    InIndices(len, 0);
    if p.started {
      assert |multiset(p.round)| + |multiset(b.remaining)| == len;
      assert |multiset(b.remaining)| == |b.remaining|;
    } else if Refills(b, generation) {
      assert multiset(after.remaining + [index]) == multiset([index]) + multiset(after.remaining);
    }
  }

  /** What one draw of a scan brings: an index of the pool, a bag that still fits it, and progress. */
  lemma DrawStep(b: BagValue, generation: nat, len: nat, p: Progress, after: BagValue, index: nat, refilled: bool)
    requires Scanning(b, generation, len, p) && p.Scanned() < len && ValidFor(b, generation, len)
    requires NextIndex(b, generation, len, after, index) && refilled == Refills(b, generation)
    ensures index < len && ValidFor(after, generation, len) && after.generation == generation
    ensures var q := p.Advance(refilled, index);
      && Scanning(after, generation, len, q) && q.draws == p.draws + 1
      && q.Scanned() == (if refilled then 1 else p.Scanned() + 1)
      && (q.Scanned() >= len ==> q.started && multiset(q.round) + multiset(after.remaining) == Indices(len))
      && q.round == (if refilled then [index] else if p.started then p.round + [index] else [])
      && q.draws <= q.left + |q.round| && q.left < len
  {
    NextIndexSafe(b, generation, len, after, index);
    ScanStep(b, generation, len, p, after, index);
  }

  ghost predicate NoneUsable(s: PoolState, round: seq<nat>, tried: set<Key>, now: nat) {
    forall i :: i in round ==> i < |s.proxies| && !Usable(s, s.proxies[i], tried, now)
  }

  lemma StillNoneUsable(s: PoolState, round: seq<nat>, index: nat, tried: set<Key>, now: nat)
    requires NoneUsable(s, round, tried, now)
    requires index < |s.proxies| && !Usable(s, s.proxies[index], tried, now)
    ensures NoneUsable(s, round + [index], tried, now)
    ensures NoneUsable(s, [index], tried, now) && NoneUsable(s, [], tried, now)
  {
  }

  lemma FullScan(s: PoolState, round: seq<nat>, remaining: seq<nat>, tried: set<Key>, now: nat)
    requires NoneUsable(s, round, tried, now) && |round| >= |s.proxies|
    requires multiset(round) + multiset(remaining) == Indices(|s.proxies|)
    ensures forall e :: e in s.proxies ==> !Usable(s, e, tried, now)
    ensures forall e :: e in s.proxies && e.key !in tried ==> !FreeAt(s.failures, e.key, now)
  {
    RoundCovers(round, remaining, |s.proxies|);
    forall e | e in s.proxies
      ensures !Usable(s, e, tried, now) && (e.key in tried || !FreeAt(s.failures, e.key, now))
    {
      UsableIsFree(s, e, tried, now);
      var i: nat :| i < |s.proxies| && s.proxies[i] == e;
      assert i in round;
    }
  }

  /** A finished round has visited every index. */
  lemma RoundCovers(round: seq<nat>, remaining: seq<nat>, len: nat)
    requires |round| >= len && multiset(round) + multiset(remaining) == Indices(len)
    ensures forall i: nat :: i < len ==> i in round
  {
    InIndices(len, 0);
    assert |multiset(round)| + |multiset(remaining)| == len;
    assert |multiset(remaining)| == |remaining|;
    assert remaining == [];
    forall i: nat | i < len
      ensures i in round
    {
      InIndices(len, i);
      assert i in multiset(round);
    }
  }

  datatype ProxyChoice = Direct | Proxy(entry: ProxyEntry)

  ghost function AvailableKeys(s: PoolState, now: nat): set<Key> {
    set k | k in Keys(s.proxies) && !Blocked(Lookup(s, k), now)
  }

  /** They are the active keys that are neither disabled nor cooling. */
  lemma AvailableAreFree(s: PoolState, now: nat)
    ensures AvailableKeys(s, now) == set k | k in Keys(s.proxies) && FreeAt(s.failures, k, now)
  {
  }

  /** How many proxies one request may try. */
  function AttemptLimit(policy: Policy, len: nat): nat {
    if policy.maxRetries == 0 then len else Min(policy.maxRetries, len)
  }

  /** Forgetting an expired cooldown does not change who is available. */
  lemma ScanKeepsAvailable(s: PoolState, key: Key, now: nat)
    ensures AvailableKeys(Scan(s, key, now), now) == AvailableKeys(s, now)
    ensures forall k :: Blocked(Lookup(Scan(s, key, now), k), now) == Blocked(Lookup(s, k), now)
  {
  }

  /** The choices made so far are active proxies with the tried keys, all different. */
  ghost predicate Taken(choices: seq<ProxyChoice>, proxies: seq<ProxyEntry>, tried: set<Key>) {
    && (forall c :: c in choices ==> c.Proxy? && c.entry in proxies && c.entry.key in tried)
    && (forall i, j :: 0 <= i < j < |choices| ==> choices[i].entry.key != choices[j].entry.key)
  }

  lemma SubsetSize(a: set<Key>, b: set<Key>)
    requires a <= b
    ensures |a| <= |b| && (b <= a ==> |a| == |b|)
  {
    assert b == a + (b - a);
    assert |b| == |a| + |b - a|;
  }

  /** If nothing untried is usable, every available key has been tried. */
  lemma AllTried(s: PoolState, now: nat, tried: set<Key>)
    requires forall e :: e in s.proxies ==> !Usable(s, e, tried, now)
    ensures AvailableKeys(s, now) <= tried
  {
    forall k | k in AvailableKeys(s, now)
      ensures k in tried
    {
      var e :| e in s.proxies && e.key == k;
    }
  }

  class ProxyAttempts {
    const pool: ProxyPool
    var tried: set<Key>
    var remaining: nat
    var directPending: bool

    constructor (pool: ProxyPool)
      ensures this.pool == pool && tried == {}
      ensures pool.proxies == [] ==> directPending && remaining == 1
      ensures pool.proxies != [] ==> !directPending && remaining == AttemptLimit(pool.policy, |pool.proxies|)
      ensures pool.proxies != [] && pool.policy.maxRetries == 0 ==> remaining == |pool.proxies|
      ensures pool.proxies != [] && pool.policy.maxRetries > 0 ==>
        remaining <= pool.policy.maxRetries && remaining <= |pool.proxies|
        && (remaining == pool.policy.maxRetries || remaining == |pool.proxies|)
    {
      this.pool := pool;
      tried := {};
      if |pool.proxies| == 0 {
        remaining, directPending := 1, true;
      } else {
        var limit, len := pool.policy.maxRetries, |pool.proxies|;
        remaining := if limit == 0 then len else Min(limit, len);
        directPending := false;
      }
    }

    method Next(now: nat) returns (r: Option<ProxyChoice>)
      requires pool.Sound()
      modifies this, pool`failures, pool.bag
      ensures pool.Sound()
      ensures !directPending
      ensures old(directPending) ==> r == Some(Direct) && remaining == 0 && tried == old(tried)
      ensures old(directPending) || r == None ==> pool.View() == old(pool.View())
      ensures !old(directPending) && r == None ==> tried == old(tried) && remaining == old(remaining)
      ensures !old(directPending) ==>
        (r == None <==> old(remaining) == 0
                        || forall e :: e in pool.proxies ==> !Usable(old(pool.View()), e, old(tried), now))
      ensures !old(directPending) && r.Some? ==> r.value.Proxy? && r.value.entry in pool.proxies
      ensures !old(directPending) && r.Some? ==> Usable(old(pool.View()), r.value.entry, old(tried), now)
      ensures !old(directPending) && r.Some? ==> FreeAt(old(pool.failures), r.value.entry.key, now)
      ensures !old(directPending) && r.Some? ==>
        tried == old(tried) + {r.value.entry.key} && remaining == old(remaining) - 1
      ensures !old(directPending) && r.Some? ==> pool.View() == Scan(old(pool.View()), r.value.entry.key, now)
    {
      if directPending {
        directPending, remaining := false, 0;
        return Some(Direct);
      }
      if remaining == 0 {
        return None;
      }
      var entry, _ := pool.NextRandomAvailable(tried, now);
      if entry == None {
        return None;
      }
      tried := tried + {entry.value.key};
      remaining := remaining - 1;
      r := Some(Proxy(entry.value));
    }
  }

  lemma {:induction false} FewKeys(entries: seq<ProxyEntry>)
    ensures |Keys(entries)| <= |entries|
  {
    if entries != [] {
      var init, last := entries[..|entries| - 1], entries[|entries| - 1];
      FewKeys(init);
      assert entries == init + [last];
      assert Keys(entries) == Keys(init) + {last.key};
    }
  }

  /** There are no more available keys than entries, so without a retry limit all of them can be tried. */
  lemma LimitIsEnough(policy: Policy, s: PoolState, now: nat)
    ensures Min(AttemptLimit(policy, |s.proxies|), |AvailableKeys(s, now)|) ==
      if policy.maxRetries == 0 then |AvailableKeys(s, now)| else Min(policy.maxRetries, |AvailableKeys(s, now)|)
  {
    FewKeys(s.proxies);
    SubsetSize(AvailableKeys(s, now), Keys(s.proxies));
  }

  /** Draining the iterator at one instant: a direct connection for an empty pool, otherwise one entry for every
      available key, or for as many of them as the retry limit allows; all with different keys. */
  method Candidates(pool: ProxyPool, now: nat) returns (choices: seq<ProxyChoice>)
    requires pool.Sound()
    modifies pool`failures, pool.bag
    ensures pool.Sound()
    ensures pool.proxies == [] ==> choices == [Direct]
    ensures pool.proxies != [] ==>
      |choices| == Min(AttemptLimit(pool.policy, |pool.proxies|), |AvailableKeys(old(pool.View()), now)|)
    ensures pool.proxies != [] ==>
      var available := |AvailableKeys(old(pool.View()), now)|;
      |choices| == if pool.policy.maxRetries == 0 then available else Min(pool.policy.maxRetries, available)
    ensures pool.proxies != [] ==> forall c :: c in choices ==>
      c.Proxy? && c.entry in pool.proxies && c.entry.key in AvailableKeys(old(pool.View()), now)
      && FreeAt(old(pool.failures), c.entry.key, now)
    ensures pool.proxies != [] ==>
      forall i, j :: 0 <= i < j < |choices| ==> choices[i].entry.key != choices[j].entry.key
  {
    var attempts := new ProxyAttempts(pool);
    choices := [];
    ghost var available := AvailableKeys(pool.View(), now);
    LimitIsEnough(pool.policy, pool.View(), now);
    AvailableAreFree(pool.View(), now);
    while true
      invariant pool.Sound() && AvailableKeys(pool.View(), now) == available
      invariant pool.proxies == [] ==>
        if attempts.directPending then choices == [] else choices == [Direct] && attempts.remaining == 0
      invariant pool.proxies != [] ==> !attempts.directPending
      invariant pool.proxies != [] ==> |choices| + attempts.remaining == AttemptLimit(pool.policy, |pool.proxies|)
      invariant pool.proxies != [] ==> Taken(choices, pool.proxies, attempts.tried)
      invariant pool.proxies != [] ==> attempts.tried <= available && |attempts.tried| == |choices|
      decreases attempts.remaining, attempts.directPending
    {
      ghost var view, tried := pool.View(), attempts.tried;
      var choice := attempts.Next(now);
      if choice == None {
        if pool.proxies != [] {
          SubsetSize(tried, available);
          if attempts.remaining > 0 {
            AllTried(view, now, tried);
          }
        }
        return;
      }
      if pool.proxies != [] {
        ScanKeepsAvailable(view, choice.value.entry.key, now);
        assert choice.value.entry.key in Keys(pool.proxies);
      }
      choices := choices + [choice.value];
    }
  }
}
