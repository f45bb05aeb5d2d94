/** The proxy pool as a value and what each completed operation does to it (src/proxy.rs). */
module PoolStates {
  import opened Prelude
  import opened FailureRecords
  import opened ProxyNodes

  type Key = string

  /** The hash a key is saved under; different keys have different hashes. */
  datatype KeyHash = KeyHash(key: Key)

  datatype ProxyEntry = ProxyEntry(key: Key, node: ProxyNode)

  datatype PoolState = PoolState(
    proxies: seq<ProxyEntry>, retired: set<KeyHash>, disabled: map<KeyHash, nat>, generation: nat,
    failures: map<Key, FailureRecord>)

  const EMPTY_POOL := PoolState([], {}, map[], 0, map[])

  const RECHECK_LIMIT: nat := 3

  function Keys(entries: seq<ProxyEntry>): set<Key> {
    set e | e in entries :: e.key
  }

  function KeySeq(entries: seq<ProxyEntry>): (keys: seq<Key>)
    ensures |keys| == |entries|
    ensures forall i :: 0 <= i < |keys| ==> keys[i] == entries[i].key
  {
    seq(|entries|, i requires 0 <= i < |entries| => entries[i].key)
  }

  function Entry(lib: Library, node: ProxyNode): ProxyEntry {
    ProxyEntry(NodeKey(lib, node), node)
  }

  function Entries(lib: Library, nodes: seq<ProxyNode>): (entries: seq<ProxyEntry>)
    ensures |entries| == |nodes|
    ensures forall i :: 0 <= i < |nodes| ==> entries[i] == Entry(lib, nodes[i])
  {
    seq(|nodes|, i requires 0 <= i < |nodes| => Entry(lib, nodes[i]))
  }

  // ----- merging -----

  predicate Retired(retired: set<KeyHash>, e: ProxyEntry) {
    KeyHash(e.key) in retired
  }

  /** The entries that a merge adds: not retired, not known, and not already taken. */
  function Fresh(known: set<Key>, retired: set<KeyHash>, entries: seq<ProxyEntry>): seq<ProxyEntry> {
    if entries == [] then [] else
    var taken := Fresh(known, retired, entries[..|entries| - 1]);
    var e := entries[|entries| - 1];
    if Retired(retired, e) || e.key in known || e.key in Keys(taken) then taken else taken + [e]
  }

  function SkippedRetired(retired: set<KeyHash>, entries: seq<ProxyEntry>): nat {
    if entries == [] then 0 else
    SkippedRetired(retired, entries[..|entries| - 1]) + if Retired(retired, entries[|entries| - 1]) then 1 else 0
  }

  function SkippedExisting(known: set<Key>, retired: set<KeyHash>, entries: seq<ProxyEntry>): nat {
    if entries == [] then 0 else
    var e := entries[|entries| - 1];
    SkippedExisting(known, retired, entries[..|entries| - 1])
    + if !Retired(retired, e) && (e.key in known || e.key in Keys(Fresh(known, retired, entries[..|entries| - 1])))
      then 1 else 0
  }

  datatype MergeSummary = MergeSummary(
    previous: nat, added: nat, skippedExisting: nat, skippedRetired: nat, active: nat)

  /** Disabled records for those of the given keys whose hash is already listed as disabled. */
  function KnownDisabled(policy: Policy, disabled: map<KeyHash, nat>, keys: set<Key>): map<Key, FailureRecord> {
    map k | k in keys && KeyHash(k) in disabled :: DisabledRecord(policy, disabled[KeyHash(k)])
  }

  function Merge(policy: Policy, s: PoolState, entries: seq<ProxyEntry>): PoolState {
    var added := Fresh(Keys(s.proxies), s.retired, entries);
    s.(proxies := s.proxies + added,
       generation := s.generation + (if added == [] then 0 else 1),
       failures := s.failures + KnownDisabled(policy, s.disabled, Keys(added)))
  }

  function Summary(s: PoolState, entries: seq<ProxyEntry>): MergeSummary {
    var known := Keys(s.proxies);
    var added := |Fresh(known, s.retired, entries)|;
    MergeSummary(|s.proxies|, added, SkippedExisting(known, s.retired, entries), SkippedRetired(s.retired, entries),
      |s.proxies| + added)
  }

  // ----- reports, rechecks, scans -----

  function Replace(s: PoolState, entries: seq<ProxyEntry>): PoolState {
    PoolState(entries, {}, map[], s.generation + 1, map[])
  }

  predicate WasDisabled(r: FailureRecord) {
    r.disabled || r.recheckFailures > 0
  }

  function Success(s: PoolState, key: Key): PoolState {
    if key !in s.failures then s
    else s.(failures := s.failures - {key},
            disabled := if WasDisabled(s.failures[key]) then s.disabled - {KeyHash(key)} else s.disabled)
  }

  function RecordOf(s: PoolState, key: Key): FailureRecord {
    if key in s.failures then s.failures[key] else FRESH
  }

  function Lookup(s: PoolState, key: Key): Option<FailureRecord> {
    if key in s.failures then Some(s.failures[key]) else None
  }

  predicate IsDisabledKey(s: PoolState, key: Key) {
    key in s.failures && s.failures[key].disabled
  }

  predicate NewlyDisabled(policy: Policy, s: PoolState, key: Key, now: nat) {
    !RecordOf(s, key).disabled && Failed(policy, RecordOf(s, key), now).disabled
  }

  function Failure(policy: Policy, s: PoolState, key: Key, now: nat): PoolState {
    s.(failures := s.failures[key := Failed(policy, RecordOf(s, key), now)],
       disabled := if NewlyDisabled(policy, s, key, now) then s.disabled[KeyHash(key) := 0] else s.disabled)
  }

  function Scan(s: PoolState, key: Key, now: nat): PoolState {
    if key in s.failures then s.(failures := s.failures[key := Settled(s.failures[key], now)]) else s
  }

  function RecheckSuccess(s: PoolState, key: Key): PoolState {
    if IsDisabledKey(s, key)
    then s.(failures := s.failures - {key}, disabled := s.disabled - {KeyHash(key)})
    else s
  }

  datatype RecheckOutcome = StillDisabled(failures: nat) | Removed(failures: nat) | NotDisabled

  function RecheckVerdict(s: PoolState, key: Key): RecheckOutcome {
    if !IsDisabledKey(s, key) then NotDisabled
    else if s.failures[key].recheckFailures + 1 >= RECHECK_LIMIT then Removed(s.failures[key].recheckFailures + 1)
    else StillDisabled(s.failures[key].recheckFailures + 1)
  }

  /** The entries that keep their place when `key` is removed. */
  function Without(entries: seq<ProxyEntry>, key: Key): seq<ProxyEntry> {
    if entries == [] then [] else
    Without(entries[..|entries| - 1], key) + if entries[|entries| - 1].key == key then [] else [entries[|entries| - 1]]
  }

  function Retire(s: PoolState, key: Key): PoolState {
    s.(proxies := Without(s.proxies, key),
       disabled := s.disabled - {KeyHash(key)},
       retired := s.retired + {KeyHash(key)},
       generation := s.generation + (if key in Keys(s.proxies) then 1 else 0))
  }

  function RecheckFailure(s: PoolState, key: Key): PoolState {
    match RecheckVerdict(s, key)
    case NotDisabled => s
    case Removed(_) => Retire(s.(failures := s.failures - {key}), key)
    case StillDisabled(n) =>
      s.(failures := s.failures[key := s.failures[key].(recheckFailures := n)],
         disabled := s.disabled[KeyHash(key) := n])
  }

  /** The active keys that are disabled, in order. */
  function DisabledKeys(entries: seq<ProxyEntry>, failures: map<Key, FailureRecord>): seq<Key> {
    if entries == [] then [] else
    var key := entries[|entries| - 1].key;
    DisabledKeys(entries[..|entries| - 1], failures)
    + if key in failures && failures[key].disabled then [key] else []
  }

  lemma {:induction false} DisabledKeysMembers(entries: seq<ProxyEntry>, failures: map<Key, FailureRecord>)
    ensures forall key :: key in DisabledKeys(entries, failures) <==>
      key in Keys(entries) && key in failures && failures[key].disabled
  {
    if entries != [] {
      var init, last := entries[..|entries| - 1], entries[|entries| - 1];
      DisabledKeysMembers(init, failures);
      assert entries == init + [last];
      assert Keys(entries) == Keys(init) + {last.key};
    }
  }

  lemma {:induction false} DisabledKeysDistinct(entries: seq<ProxyEntry>, failures: map<Key, FailureRecord>)
    requires Distinct(KeySeq(entries))
    ensures Distinct(DisabledKeys(entries, failures))
  {
    if entries != [] {
      var init, last := entries[..|entries| - 1], entries[|entries| - 1];
      assert entries == init + [last];
      DistinctSnoc(init, last);
      DisabledKeysDistinct(init, failures);
      DisabledKeysMembers(init, failures);
    }
  }

  // ----- saving and starting -----

  /** What the saved state file means. */
  datatype Saved = Saved(available: seq<PersistedNode>, disabled: map<KeyHash, nat>, retired: set<KeyHash>)

  const NOTHING_SAVED := Saved([], map[], {})

  function PersistAll(entries: seq<ProxyEntry>): seq<PersistedNode> {
    if entries == [] then [] else
    var p := Persist(entries[|entries| - 1].node);
    PersistAll(entries[..|entries| - 1]) + if p.Some? then [p.value] else []
  }

  function SavedOf(s: PoolState): Saved {
    Saved(PersistAll(s.proxies), s.disabled, s.retired)
  }

  function RestoreAll(lib: Library, saved: seq<PersistedNode>): seq<ProxyNode> {
    if saved == [] then [] else
    var n := Restore(lib, saved[|saved| - 1]);
    RestoreAll(lib, saved[..|saved| - 1]) + if n.Some? then [n.value] else []
  }

  /** The pool built from a saved state followed by further nodes. */
  function Start(lib: Library, policy: Policy, saved: Saved, nodes: seq<ProxyNode>): PoolState {
    var entries := Entries(lib, RestoreAll(lib, saved.available)) + Entries(lib, nodes);
    var active := Fresh({}, saved.retired, entries);
    PoolState(active, saved.retired, saved.disabled, 0, KnownDisabled(policy, saved.disabled, Keys(active)))
  }

  // ----- invariants -----

  /** The failure records and the saved list tell the same story about who is disabled. */
  ghost predicate ViewsAgree(s: PoolState) {
    && (forall k :: k in s.failures && s.failures[k].disabled ==>
         KeyHash(k) in s.disabled && s.disabled[KeyHash(k)] == s.failures[k].recheckFailures)
    && (forall e :: e in s.proxies && KeyHash(e.key) in s.disabled ==> IsDisabledKey(s, e.key))
  }

  ghost predicate NoneRetired(s: PoolState) {
    forall e :: e in s.proxies ==> !Retired(s.retired, e)
  }

  ghost predicate KeysMatchNodes(lib: Library, s: PoolState) {
    forall e :: e in s.proxies ==> e.key == NodeKey(lib, e.node)
  }

  ghost predicate Valid(lib: Library, s: PoolState) {
    KeysMatchNodes(lib, s) && NoneRetired(s) && ViewsAgree(s)
  }

  ghost predicate DistinctKeys(s: PoolState) {
    Distinct(KeySeq(s.proxies))
  }

  // ----- merge is a filter -----

  /** Entry i is the first of its key, the key is not known, and it is not retired. */
  ghost predicate NewAt(known: set<Key>, retired: set<KeyHash>, entries: seq<ProxyEntry>, i: nat)
    requires i < |entries|
  {
    && !Retired(retired, entries[i]) && entries[i].key !in known
    && forall j :: 0 <= j < i ==> entries[j].key != entries[i].key
  }

  /** The entries at the new positions among the first n, in order. */
  ghost function Selected(known: set<Key>, retired: set<KeyHash>, entries: seq<ProxyEntry>, n: nat): seq<ProxyEntry>
    requires n <= |entries|
  {
    if n == 0 then [] else
    Selected(known, retired, entries, n - 1) + if NewAt(known, retired, entries, n - 1) then [entries[n - 1]] else []
  }

  /** After taking the fresh ones, a key that is neither known nor retired is taken exactly if it occurred. */
  lemma {:induction false} FreshKeys(known: set<Key>, retired: set<KeyHash>, entries: seq<ProxyEntry>)
    ensures forall k :: k in Keys(Fresh(known, retired, entries)) <==>
      k in Keys(entries) && k !in known && KeyHash(k) !in retired
    ensures forall e :: e in Fresh(known, retired, entries) ==> e in entries
  {
    if entries != [] {
      var init := entries[..|entries| - 1];
      FreshKeys(known, retired, init);
      assert entries == init + [entries[|entries| - 1]];
      assert Keys(entries) == Keys(init) + {entries[|entries| - 1].key};
      var taken, e := Fresh(known, retired, init), entries[|entries| - 1];
      assert Keys(taken + [e]) == Keys(taken) + {e.key};
    }
  }

  /** The loop with its growing set of known keys selects the first occurrence of each new, non-retired key. */
  lemma {:induction false} MergeIsFilter(known: set<Key>, retired: set<KeyHash>, entries: seq<ProxyEntry>, n: nat)
    requires n <= |entries|
    ensures Fresh(known, retired, entries[..n]) == Selected(known, retired, entries, n)
  {
    if n > 0 {
      MergeIsFilter(known, retired, entries, n - 1);
      FreshKeys(known, retired, entries[..n - 1]);
      assert entries[..n][..n - 1] == entries[..n - 1];
      var e := entries[n - 1];
      assert e.key in Keys(entries[..n - 1]) <==> exists j :: 0 <= j < n - 1 && entries[j].key == e.key;
    }
  }

  lemma DistinctSnoc(entries: seq<ProxyEntry>, e: ProxyEntry)
    ensures Distinct(KeySeq(entries + [e])) <==> Distinct(KeySeq(entries)) && e.key !in Keys(entries)
  {
    var all := KeySeq(entries + [e]);
    assert all == KeySeq(entries) + [e.key];
    if Distinct(all) {
      forall i | 0 <= i < |entries|
        ensures entries[i].key != e.key
      {
        assert all[i] != all[|entries|];
      }
      forall i, j | 0 <= i < j < |entries|
        ensures KeySeq(entries)[i] != KeySeq(entries)[j]
      {
        assert all[i] != all[j];
      }
    } else if e.key !in Keys(entries) {
      forall i | 0 <= i < |entries|
        ensures entries[i].key in Keys(entries)
      {
        assert entries[i] in entries;
      }
    }
  }

  lemma {:induction false} FreshDistinct(known: set<Key>, retired: set<KeyHash>, entries: seq<ProxyEntry>)
    ensures Distinct(KeySeq(Fresh(known, retired, entries)))
    ensures |Fresh(known, retired, entries)| <= |entries|
  {
    if entries != [] {
      FreshDistinct(known, retired, entries[..|entries| - 1]);
      DistinctSnoc(Fresh(known, retired, entries[..|entries| - 1]), entries[|entries| - 1]);
    }
  }

  /** Every merged entry is counted once: added, already known, or retired. */
  lemma {:induction false} MergeConserves(known: set<Key>, retired: set<KeyHash>, entries: seq<ProxyEntry>)
    ensures |Fresh(known, retired, entries)| + SkippedExisting(known, retired, entries)
            + SkippedRetired(retired, entries) == |entries|
  {
    if entries != [] {
      MergeConserves(known, retired, entries[..|entries| - 1]);
    }
  }

  /** Positions whose key is retired, and positions whose key is not but is known or came earlier. */
  ghost function RetiredAt(retired: set<KeyHash>, entries: seq<ProxyEntry>, n: nat): set<nat>
    requires n <= |entries|
  {
    set i: nat | i < n && Retired(retired, entries[i])
  }

  ghost function KnownAt(known: set<Key>, retired: set<KeyHash>, entries: seq<ProxyEntry>, n: nat): set<nat>
    requires n <= |entries|
  {
    set i: nat | i < n && Repeats(known, retired, entries, i)
  }

  lemma RetiredOneMore(retired: set<KeyHash>, entries: seq<ProxyEntry>, m: nat)
    requires m < |entries|
    ensures |RetiredAt(retired, entries, m + 1)| ==
      |RetiredAt(retired, entries, m)| + if Retired(retired, entries[m]) then 1 else 0
  {
    var before := RetiredAt(retired, entries, m);
    assert RetiredAt(retired, entries, m + 1) == before + if Retired(retired, entries[m]) then {m} else {};
    assert m !in before;
  }

  /** The entry at m repeats a key that is known or came earlier. */
  ghost predicate Repeats(known: set<Key>, retired: set<KeyHash>, entries: seq<ProxyEntry>, m: nat)
    requires m < |entries|
  {
    !Retired(retired, entries[m])
    && (entries[m].key in known || exists j :: 0 <= j < m && entries[j].key == entries[m].key)
  }

  lemma KnownOneMore(known: set<Key>, retired: set<KeyHash>, entries: seq<ProxyEntry>, m: nat)
    requires m < |entries|
    ensures |KnownAt(known, retired, entries, m + 1)| ==
      |KnownAt(known, retired, entries, m)| + if Repeats(known, retired, entries, m) then 1 else 0
  {
    var before := KnownAt(known, retired, entries, m);
    assert KnownAt(known, retired, entries, m + 1) == before + if Repeats(known, retired, entries, m) then {m} else {};
    assert m !in before;
  }

  /** Each counter of a merge counts its own positions. */
  lemma {:induction false} SkippedPositions(known: set<Key>, retired: set<KeyHash>, entries: seq<ProxyEntry>, n: nat)
    requires n <= |entries|
    ensures SkippedRetired(retired, entries[..n]) == |RetiredAt(retired, entries, n)|
    ensures SkippedExisting(known, retired, entries[..n]) == |KnownAt(known, retired, entries, n)|
  {
    if n > 0 {
      var m := n - 1;
      SkippedPositions(known, retired, entries, m);
      assert entries[..n][..m] == entries[..m] && entries[..n][m] == entries[m];
      FreshKeys(known, retired, entries[..m]);
      assert entries[m].key in Keys(entries[..m]) <==> exists j :: 0 <= j < m && entries[j].key == entries[m].key;
      RetiredOneMore(retired, entries, m);
      KnownOneMore(known, retired, entries, m);
    }
  }

  /** `merge` keeps the old entries as a prefix, appends the filtered new ones, and reports exact counts. */
  lemma MergeRefinesFilter(policy: Policy, s: PoolState, entries: seq<ProxyEntry>)
    ensures var t := Merge(policy, s, entries); var sum := Summary(s, entries);
      && t.proxies == s.proxies + Selected(Keys(s.proxies), s.retired, entries, |entries|)
      && sum.added + sum.skippedExisting + sum.skippedRetired == |entries|
      && sum.active == sum.previous + sum.added == |t.proxies|
      && (DistinctKeys(s) ==> DistinctKeys(t))
  {
    var known := Keys(s.proxies);
    MergeIsFilter(known, s.retired, entries, |entries|);
    assert entries[..|entries|] == entries;
    MergeConserves(known, s.retired, entries);
    FreshKeys(known, s.retired, entries);
    FreshDistinct(known, s.retired, entries);
    var added := Fresh(known, s.retired, entries);
    if DistinctKeys(s) {
      forall i, j | 0 <= i < j < |s.proxies + added|
        ensures (s.proxies + added)[i].key != (s.proxies + added)[j].key
      {
        if i < |s.proxies| <= j {
          assert s.proxies[i].key in known;
          assert added[j - |s.proxies|].key in Keys(added);
        } else if i < |s.proxies| {
          assert KeySeq(s.proxies)[i] != KeySeq(s.proxies)[j];
        } else {
          assert KeySeq(added)[i - |s.proxies|] != KeySeq(added)[j - |s.proxies|];
        }
      }
    }
  }

  lemma SomeKey(entries: seq<ProxyEntry>)
    requires entries != []
    ensures Keys(entries) != {}
  {
    assert entries[0].key in Keys(entries);
  }

  /** A second merge of the same input adds nothing and changes nothing. */
  lemma MergeTwice(policy: Policy, s: PoolState, entries: seq<ProxyEntry>)
    ensures var t := Merge(policy, s, entries);
      Merge(policy, t, entries) == t && Summary(t, entries).added == 0
  {
    var t := Merge(policy, s, entries);
    var added := Fresh(Keys(s.proxies), s.retired, entries);
    FreshKeys(Keys(s.proxies), s.retired, entries);
    assert Keys(t.proxies) == Keys(s.proxies) + Keys(added);
    var again := Fresh(Keys(t.proxies), t.retired, entries);
    FreshKeys(Keys(t.proxies), t.retired, entries);
    if again != [] {
      SomeKey(again);
    }
    assert t.failures + KnownDisabled(policy, t.disabled, Keys(again)) == t.failures;
  }
}
