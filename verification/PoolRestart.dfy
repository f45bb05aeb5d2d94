/** Building a pool from its own saved state is a faithful projection (src/proxy.rs). */
module PoolRestart {
  import opened Prelude
  import opened FailureRecords
  import opened ProxyNodes
  import opened PoolStates
  import opened PoolRuns

  /** The entries that are written to the state file. */
  function Savable(entries: seq<ProxyEntry>): seq<ProxyEntry> {
    if entries == [] then [] else
    Savable(entries[..|entries| - 1])
    + if Persist(entries[|entries| - 1].node).Some? then [entries[|entries| - 1]] else []
  }

  lemma {:induction false} SavableFacts(entries: seq<ProxyEntry>)
    ensures |PersistAll(entries)| == |Savable(entries)|
    ensures forall i :: 0 <= i < |Savable(entries)| ==>
      Persist(Savable(entries)[i].node) == Some(PersistAll(entries)[i])
    ensures forall e :: e in Savable(entries) <==> e in entries && Persist(e.node).Some?
  {
    if entries != [] {
      SavableFacts(entries[..|entries| - 1]);
      assert entries == entries[..|entries| - 1] + [entries[|entries| - 1]];
    }
  }

  lemma {:induction false} SavableDistinct(entries: seq<ProxyEntry>)
    requires Distinct(KeySeq(entries))
    ensures Distinct(KeySeq(Savable(entries)))
  {
    if entries != [] {
      var init, last := entries[..|entries| - 1], entries[|entries| - 1];
      assert entries == init + [last];
      DistinctSnoc(init, last);
      SavableDistinct(init);
      SavableFacts(init);
      assert Keys(Savable(init)) <= Keys(init);
      DistinctSnoc(Savable(init), last);
    }
  }

  /** Restoring loses only what does not restore. */
  lemma {:induction false} RestoreAllFacts(lib: Library, saved: seq<PersistedNode>)
    ensures |RestoreAll(lib, saved)| <= |saved|
    ensures |RestoreAll(lib, saved)| == |saved| <==> forall i :: 0 <= i < |saved| ==> Restore(lib, saved[i]).Some?
    ensures |RestoreAll(lib, saved)| == |saved| ==>
      forall i :: 0 <= i < |saved| ==> Restore(lib, saved[i]) == Some(RestoreAll(lib, saved)[i])
  {
    if saved != [] {
      RestoreAllFacts(lib, saved[..|saved| - 1]);
    }
  }

  /** The start-up filter leaves distinct, non-retired entries alone. */
  lemma {:induction false} FreshAll(retired: set<KeyHash>, entries: seq<ProxyEntry>)
    requires Distinct(KeySeq(entries))
    requires forall e :: e in entries ==> !Retired(retired, e)
    ensures Fresh({}, retired, entries) == entries
  {
    if entries != [] {
      var init, last := entries[..|entries| - 1], entries[|entries| - 1];
      assert entries == init + [last];
      DistinctSnoc(init, last);
      FreshAll(retired, init);
    }
  }

  /** If the filter keeps the number of entries it keeps the entries. */
  lemma {:induction false} FreshSameLength(retired: set<KeyHash>, entries: seq<ProxyEntry>)
    requires |Fresh({}, retired, entries)| == |entries|
    ensures Fresh({}, retired, entries) == entries
  {
    if entries != [] {
      FreshDistinct({}, retired, entries[..|entries| - 1]);
      FreshSameLength(retired, entries[..|entries| - 1]);
    }
  }

  ghost predicate AllRestorable(lib: Library, entries: seq<ProxyEntry>) {
    forall e :: e in entries && Persist(e.node).Some? ==> Restorable(lib, e.node)
  }

  lemma SameKeys(a: seq<ProxyEntry>, b: seq<ProxyEntry>)
    requires KeySeq(a) == KeySeq(b)
    ensures Keys(a) == Keys(b)
  {
    forall i | 0 <= i < |a|
      ensures a[i].key in Keys(b) && b[i].key in Keys(a)
    {
      assert KeySeq(a)[i] == KeySeq(b)[i];
      assert a[i] in a && b[i] in b;
    }
  }

  lemma RestartEntries(lib: Library, policy: Policy, s: PoolState)
    requires Valid(lib, s) && DistinctKeys(s) && AllRestorable(lib, s.proxies)
    ensures var nodes := RestoreAll(lib, PersistAll(s.proxies)); var t := Start(lib, policy, SavedOf(s), []);
      && |nodes| == |Savable(s.proxies)| && t.proxies == Entries(lib, nodes)
      && KeySeq(t.proxies) == KeySeq(Savable(s.proxies))
  {
    var saved, kept := PersistAll(s.proxies), Savable(s.proxies);
    SavableFacts(s.proxies);
    SavableDistinct(s.proxies);
    forall i | 0 <= i < |saved|
      ensures Restore(lib, saved[i]).Some? && NodeKey(lib, Restore(lib, saved[i]).value) == kept[i].key
    {
      assert kept[i] in kept;
      RestoredKey(lib, kept[i].node);
    }
    RestoreAllFacts(lib, saved);
    var entries := Entries(lib, RestoreAll(lib, saved));
    assert KeySeq(entries) == KeySeq(kept);
    SameKeys(entries, kept);
    forall e | e in entries
      ensures !Retired(s.retired, e)
    {
      assert e.key in Keys(kept);
    }
    FreshAll(s.retired, entries);
    assert entries + Entries(lib, []) == entries;
  }

  lemma KeptKeysRestore(lib: Library, policy: Policy, s: PoolState, e: ProxyEntry)
    requires KeySeq(Start(lib, policy, SavedOf(s), []).proxies) == KeySeq(Savable(s.proxies))
    requires KeysMatchNodes(lib, s) && e in s.proxies && Persist(e.node).Some?
    ensures Restorable(lib, e.node)
  {
    var saved, kept := PersistAll(s.proxies), Savable(s.proxies);
    SavableFacts(s.proxies);
    RestoreAllFacts(lib, saved);
    var entries := Entries(lib, RestoreAll(lib, saved));
    assert entries + Entries(lib, []) == entries;
    var active := Fresh({}, s.retired, entries);
    FreshDistinct({}, s.retired, entries);
    assert |active| == |KeySeq(active)| == |kept|;
    FreshSameLength(s.retired, entries);
    var i :| 0 <= i < |kept| && kept[i] == e;
    assert KeySeq(active)[i] == KeySeq(kept)[i];
    assert Restore(lib, saved[i]) == Some(entries[i].node);
    RestoredKey(lib, e.node);
  }

  /** Restarting gives back the ordered active keys, minus local listeners, exactly if every saved node
      restores under its own key. */
  lemma RestartKeepsKeys(lib: Library, policy: Policy, s: PoolState)
    requires Valid(lib, s) && DistinctKeys(s)
    ensures KeySeq(Start(lib, policy, SavedOf(s), []).proxies) == KeySeq(Savable(s.proxies)) <==>
      AllRestorable(lib, s.proxies)
  {
    if AllRestorable(lib, s.proxies) {
      RestartEntries(lib, policy, s);
    }
    if KeySeq(Start(lib, policy, SavedOf(s), []).proxies) == KeySeq(Savable(s.proxies)) {
      forall e | e in s.proxies && Persist(e.node).Some?
        ensures Restorable(lib, e.node)
      {
        KeptKeysRestore(lib, policy, s, e);
      }
    }
  }

  lemma {:induction false} PersistRestored(lib: Library, saved: seq<PersistedNode>)
    requires |RestoreAll(lib, saved)| == |saved|
    ensures PersistAll(Entries(lib, RestoreAll(lib, saved))) == saved
  {
    if saved != [] {
      var init, last := saved[..|saved| - 1], saved[|saved| - 1];
      RestoreAllLonger(lib, saved);
      PersistRestored(lib, init);
      RestoredPersists(lib, last);
      var node := Restore(lib, last).value;
      assert RestoreAll(lib, saved) == RestoreAll(lib, init) + [node];
      PersistLast(Entries(lib, RestoreAll(lib, init)), Entry(lib, node));
      assert Entries(lib, RestoreAll(lib, saved)) == Entries(lib, RestoreAll(lib, init)) + [Entry(lib, node)];
      assert saved == init + [last];
    }
  }

  lemma RestoreAllLonger(lib: Library, saved: seq<PersistedNode>)
    requires saved != [] && |RestoreAll(lib, saved)| == |saved|
    ensures |RestoreAll(lib, saved[..|saved| - 1])| == |saved| - 1 && Restore(lib, saved[|saved| - 1]).Some?
  {
    RestoreAllFacts(lib, saved[..|saved| - 1]);
  }

  lemma PersistLast(entries: seq<ProxyEntry>, e: ProxyEntry)
    requires Persist(e.node).Some?
    ensures PersistAll(entries + [e]) == PersistAll(entries) + [Persist(e.node).value]
  {
    assert (entries + [e])[..|entries|] == entries;
  }

  /** An image that loses nothing on the way in: every saved node restores, no two under the same key, and
      none under a retired one. */
  ghost predicate Lossless(lib: Library, saved: Saved) {
    var entries := Entries(lib, RestoreAll(lib, saved.available));
    && |entries| == |saved.available| && Distinct(KeySeq(entries))
    && forall e :: e in entries ==> !Retired(saved.retired, e)
  }

  lemma {:induction false} PersistAllLength(entries: seq<ProxyEntry>)
    ensures |PersistAll(entries)| <= |entries|
  {
    if entries != [] {
      PersistAllLength(entries[..|entries| - 1]);
    }
  }

  /** Saving the pool started from an image gives that image again exactly if the image is lossless. */
  lemma SavedAgain(lib: Library, policy: Policy, saved: Saved)
    ensures SavedOf(Start(lib, policy, saved, [])) == saved <==> Lossless(lib, saved)
  {
    var entries := Entries(lib, RestoreAll(lib, saved.available));
    assert entries + Entries(lib, []) == entries;
    var active := Fresh({}, saved.retired, entries);
    RestoreAllFacts(lib, saved.available);
    FreshDistinct({}, saved.retired, entries);
    if Lossless(lib, saved) {
      FreshAll(saved.retired, entries);
      PersistRestored(lib, saved.available);
    }
    if PersistAll(active) == saved.available {
      PersistAllLength(active);
      FreshSameLength(saved.retired, entries);
      FreshKeys({}, saved.retired, entries);
      assert forall e :: e in active ==> e.key in Keys(active);
    }
  }

  /** Saving a pool, restarting it and saving again gives the same image exactly if every saved node
      restores, under different keys, none of them retired; in particular if all of them restore under
      their own keys. */
  lemma SaveAfterRestart(lib: Library, policy: Policy, s: PoolState)
    ensures SavedOf(Start(lib, policy, SavedOf(s), [])) == SavedOf(s) <==> Lossless(lib, SavedOf(s))
    ensures Valid(lib, s) && DistinctKeys(s) && AllRestorable(lib, s.proxies) ==> Lossless(lib, SavedOf(s))
  {
    SavedAgain(lib, policy, SavedOf(s));
    if Valid(lib, s) && DistinctKeys(s) && AllRestorable(lib, s.proxies) {
      RestartEntries(lib, policy, s);
      SavableFacts(s.proxies);
      PersistRestored(lib, PersistAll(s.proxies));
    }
  }

  // ----- restarting is a projection -----

  /** The entry is saved, and its saved form restores to the entry itself. */
  ghost predicate ComesBack(lib: Library, e: ProxyEntry) {
    Persist(e.node).Some? && Restore(lib, Persist(e.node).value) == Some(e.node) && e == Entry(lib, e.node)
  }

  lemma RestoreLast(lib: Library, saved: seq<PersistedNode>, last: PersistedNode)
    requires Restore(lib, last).Some?
    ensures Entries(lib, RestoreAll(lib, saved + [last])) ==
      Entries(lib, RestoreAll(lib, saved)) + [Entry(lib, Restore(lib, last).value)]
  {
    assert (saved + [last])[..|saved|] == saved;
  }

  lemma OneMoreComesBack(lib: Library, init: seq<ProxyEntry>, last: ProxyEntry)
    requires Entries(lib, RestoreAll(lib, PersistAll(init))) == init && ComesBack(lib, last)
    ensures Entries(lib, RestoreAll(lib, PersistAll(init + [last]))) == init + [last]
  {
    PersistLast(init, last);
    RestoreLast(lib, PersistAll(init), Persist(last.node).value);
  }

  lemma {:induction false} RestoredComeBack(lib: Library, entries: seq<ProxyEntry>)
    requires forall e :: e in entries ==> ComesBack(lib, e)
    ensures Entries(lib, RestoreAll(lib, PersistAll(entries))) == entries
  {
    if entries == [] {
      assert RestoreAll(lib, PersistAll(entries)) == [];
    } else {
      var init, last := entries[..|entries| - 1], entries[|entries| - 1];
      assert entries == init + [last];
      RestoredComeBack(lib, init);
      OneMoreComesBack(lib, init, last);
    }
  }

  lemma {:induction false} RestoredMembers(lib: Library, saved: seq<PersistedNode>, node: ProxyNode)
    requires node in RestoreAll(lib, saved)
    ensures Persist(node).Some? && Restore(lib, Persist(node).value) == Some(node)
  {
    var init, last := saved[..|saved| - 1], saved[|saved| - 1];
    if node in RestoreAll(lib, init) {
      RestoredMembers(lib, init, node);
    } else {
      RestoredPersists(lib, last);
    }
  }

  /** Whatever the file said, one restart reaches a pool that every further restart gives back unchanged. */
  lemma RestartIsProjection(lib: Library, policy: Policy, saved: Saved)
    ensures var t := Start(lib, policy, saved, []); Start(lib, policy, SavedOf(t), []) == t
  {
    var entries := Entries(lib, RestoreAll(lib, saved.available));
    assert entries + Entries(lib, []) == entries;
    var active := Fresh({}, saved.retired, entries);
    FreshKeys({}, saved.retired, entries);
    FreshDistinct({}, saved.retired, entries);
    forall e | e in active
      ensures ComesBack(lib, e)
      ensures !Retired(saved.retired, e)
    {
      assert e in entries && e.key in Keys(active);
      RestoredMembers(lib, saved.available, e.node);
    }
    RestoredComeBack(lib, active);
    FreshAll(saved.retired, active);
    assert active + Entries(lib, []) == active;
  }

  // ----- who is disabled -----

  /** The saved list marks exactly the disabled ones among the active keys. */
  lemma KnownDisabledVerdict(policy: Policy, s: PoolState, keys: set<Key>, key: Key)
    requires ViewsAgree(s) && key in keys && key in Keys(s.proxies)
    ensures var records := KnownDisabled(policy, s.disabled, keys);
      && (key in records <==> IsDisabledKey(s, key))
      && (IsDisabledKey(s, key) ==> records[key] == DisabledRecord(policy, s.failures[key].recheckFailures))
  {
    var e :| e in s.proxies && e.key == key;
  }

  /** A restart keeps the retired set and the disabled list, and every key that is active before and after
      keeps its verdict with its recheck count; every other record, and with it every transient count, is gone. */
  lemma RestartKeepsVerdicts(lib: Library, policy: Policy, s: PoolState, key: Key)
    requires ViewsAgree(s)
    ensures var t := Start(lib, policy, SavedOf(s), []);
      && t.retired == s.retired && t.disabled == s.disabled
      && (key in Keys(t.proxies) && key in Keys(s.proxies) ==>
            && (IsDisabledKey(t, key) <==> IsDisabledKey(s, key))
            && (IsDisabledKey(s, key) ==> t.failures[key] == DisabledRecord(policy, s.failures[key].recheckFailures))
            && (!IsDisabledKey(s, key) ==> key !in t.failures))
  {
    var t := Start(lib, policy, SavedOf(s), []);
    if key in Keys(t.proxies) && key in Keys(s.proxies) {
      KnownDisabledVerdict(policy, s, Keys(t.proxies), key);
    }
  }

  /** Which active keys are active again: all that are saved, if their nodes restore under their own keys. */
  lemma RestorableKeysReturn(lib: Library, policy: Policy, s: PoolState)
    requires Valid(lib, s) && DistinctKeys(s) && AllRestorable(lib, s.proxies)
    ensures Keys(Start(lib, policy, SavedOf(s), []).proxies) == Keys(Savable(s.proxies)) <= Keys(s.proxies)
  {
    RestartEntries(lib, policy, s);
    SameKeys(Start(lib, policy, SavedOf(s), []).proxies, Savable(s.proxies));
    SavableFacts(s.proxies);
  }

  /** A node as the program itself makes it: Shadowsocks servers carry a name and settings that build, and
      complex nodes carry what the library builds from their source. */
  predicate MadeHere(lib: Library, node: ProxyNode) {
    match node
    case Shadowsocks(server, _) => server.addr.DomainName? && lib.shadowsocksBuilds(server.cipher, server.password)
    case Meow(key, title, source) => lib.buildMeow(source) == Some((key, title))
    case _ => true
  }

  lemma MadeHereReturns(lib: Library, node: ProxyNode)
    requires MadeHere(lib, node) && Persist(node).Some?
    ensures Restore(lib, Persist(node).value) == Some(node)
  {
  }

  lemma {:induction false} PersistSavable(entries: seq<ProxyEntry>)
    ensures PersistAll(Savable(entries)) == PersistAll(entries)
  {
    if entries != [] {
      var init, last := entries[..|entries| - 1], entries[|entries| - 1];
      PersistSavable(init);
      if Persist(last.node).Some? {
        PersistLast(Savable(init), last);
      } else {
        assert Savable(entries) == Savable(init);
      }
    }
  }

  /** A pool of nodes that the program made itself comes back entry by entry, but for local listeners, and
      saves to the same image. */
  lemma OwnNodesReturn(lib: Library, policy: Policy, s: PoolState)
    requires Valid(lib, s) && DistinctKeys(s)
    requires forall e :: e in s.proxies ==> MadeHere(lib, e.node)
    ensures Start(lib, policy, SavedOf(s), []).proxies == Savable(s.proxies)
    ensures SavedOf(Start(lib, policy, SavedOf(s), [])) == SavedOf(s)
  {
    var kept := Savable(s.proxies);
    SavableFacts(s.proxies);
    SavableDistinct(s.proxies);
    PersistSavable(s.proxies);
    forall e | e in kept
      ensures ComesBack(lib, e)
    {
      MadeHereReturns(lib, e.node);
    }
    RestoredComeBack(lib, kept);
    FreshAll(s.retired, kept);
    assert kept + Entries(lib, []) == kept;
  }

  /** Filtering two lists at once is filtering the second against what the first left. */
  lemma {:induction false} FreshConcat(retired: set<KeyHash>, a: seq<ProxyEntry>, b: seq<ProxyEntry>)
    ensures Fresh({}, retired, a + b) == Fresh({}, retired, a) + Fresh(Keys(Fresh({}, retired, a)), retired, b)
  {
    if b == [] {
      assert a + b == a;
    } else {
      var init := b[..|b| - 1];
      assert (a + b)[..|a + b| - 1] == a + init;
      FreshConcat(retired, a, init);
      var left := Fresh({}, retired, a);
      var right := Fresh(Keys(left), retired, init);
      assert Keys(left + right) == Keys(left) + Keys(right);
    }
  }

  /** Starting with further nodes is starting without them and merging them afterwards. */
  lemma StartThenMerge(lib: Library, policy: Policy, saved: Saved, nodes: seq<ProxyNode>)
    ensures Start(lib, policy, saved, nodes) ==
      Merge(policy, Start(lib, policy, saved, []), Entries(lib, nodes)).(generation := 0)
  {
    var restored := Entries(lib, RestoreAll(lib, saved.available));
    FreshConcat(saved.retired, restored, Entries(lib, nodes));
    assert restored + Entries(lib, []) == restored;
    var first := Fresh({}, saved.retired, restored);
    var second := Fresh(Keys(first), saved.retired, Entries(lib, nodes));
    assert Keys(first + second) == Keys(first) + Keys(second);
    KnownDisabledUnion(policy, saved.disabled, Keys(first), Keys(second));
  }

  lemma KnownDisabledUnion(policy: Policy, disabled: map<KeyHash, nat>, a: set<Key>, b: set<Key>)
    ensures KnownDisabled(policy, disabled, a + b) ==
      KnownDisabled(policy, disabled, a) + KnownDisabled(policy, disabled, b)
  {
  }
}
