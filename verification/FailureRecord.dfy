/** The failure, cooldown and disable cycle of one proxy key (src/proxy.rs). */
module FailureRecords {
  import opened Prelude

  datatype FailureRecord = FailureRecord(
    failures: nat, cooldowns: nat, cooldownUntil: Option<nat>, disabled: bool, recheckFailures: nat)

  /** The pool's failure policy; both limits are raised to at least one when the pool is built. */
  datatype PolicyFields = PolicyFields(maxRetries: nat, threshold: nat, disableAfter: nat, cooldown: nat)

  type Policy = p: PolicyFields | p.threshold >= 1 && p.disableAfter >= 1 witness PolicyFields(0, 1, 1, 0)

  function NewPolicy(maxRetries: nat, threshold: nat, disableAfter: nat, cooldown: nat): Policy {
    PolicyFields(maxRetries, Max(threshold, 1), Max(disableAfter, 1), cooldown)
  }

  const FRESH := FailureRecord(0, 0, None, false, 0)

  /** The record a key gets when it is known to be disabled already. */
  function DisabledRecord(policy: Policy, recheckFailures: nat): FailureRecord {
    FailureRecord(0, policy.disableAfter, None, true, recheckFailures)
  }

  predicate Expired(r: FailureRecord, now: nat) {
    r.cooldownUntil.Some? && r.cooldownUntil.value <= now
  }

  /** An expired cooldown is forgotten together with the failures counted since it began. */
  function Settled(r: FailureRecord, now: nat): FailureRecord {
    if !r.disabled && Expired(r, now) then r.(failures := 0, cooldownUntil := None) else r
  }

  /** The record after one more failure report at `now`. */
  function Failed(policy: Policy, r: FailureRecord, now: nat): FailureRecord {
    if r.disabled then r else
    var settled := Settled(r, now);
    var failures := settled.failures + 1;
    if failures < policy.threshold then settled.(failures := failures)
    else if settled.cooldowns + 1 < policy.disableAfter then
      settled.(failures := 0, cooldowns := settled.cooldowns + 1, cooldownUntil := Some(now + policy.cooldown))
    else
      FailureRecord(0, settled.cooldowns + 1, None, true, 0)
  }

  /** Whether a key with this record is passed over at `now`. */
  predicate Blocked(r: Option<FailureRecord>, now: nat) {
    r.Some? && (r.value.disabled || (r.value.cooldownUntil.Some? && r.value.cooldownUntil.value > now))
  }

  /** What can happen to a record between successes: a failure report, or a scan that looks at it. */
  datatype Event = Reported(now: nat) | LookedAt(now: nat)

  function After(policy: Policy, events: seq<Event>): Option<FailureRecord> {
    if events == [] then None else
    var before := After(policy, events[..|events| - 1]);
    match events[|events| - 1]
    case Reported(now) => Some(Failed(policy, if before.Some? then before.value else FRESH, now))
    case LookedAt(now) => if before.Some? then Some(Settled(before.value, now)) else None
  }

  function Reports(events: seq<Event>): nat {
    if events == [] then 0
    else Reports(events[..|events| - 1]) + if events[|events| - 1].Reported? then 1 else 0
  }

  predicate IsDisabled(r: Option<FailureRecord>) {
    r.Some? && r.value.disabled
  }

  /** The least and the greatest number of reports that can be spent reaching a disable. */
  function LeastReports(policy: Policy): nat {
    policy.threshold * policy.disableAfter
  }

  function MostReports(policy: Policy): nat {
    policy.threshold * policy.disableAfter + (policy.threshold - 1) * (policy.disableAfter - 1)
  }

  /** Cooldowns that already ended: each of them can have wasted up to threshold - 1 reports. */
  function Ended(r: FailureRecord): int {
    r.cooldowns - if r.cooldownUntil.Some? then 1 else 0
  }

  ghost predicate Accounted(policy: Policy, r: FailureRecord, reports: nat) {
    && r.failures < policy.threshold && r.cooldowns < policy.disableAfter && 0 <= Ended(r)
    && policy.threshold * r.cooldowns + r.failures <= reports
    && reports <= policy.threshold * r.cooldowns + r.failures + (policy.threshold - 1) * Ended(r)
  }

  lemma MulStep(a: int, b: int)
    ensures a * (b + 1) == a * b + a
  {
  }

  lemma MulMonotone(a: nat, b: int, c: int)
    requires b <= c
    ensures a * b <= a * c
  {
  }

  lemma SettledAccounted(policy: Policy, r: FailureRecord, now: nat, reports: nat)
    requires !r.disabled && Accounted(policy, r, reports)
    ensures Accounted(policy, Settled(r, now), reports)
  {
    if Expired(r, now) {
      MulStep(policy.threshold - 1, Ended(r));
    }
  }

  /** One report either keeps the account balanced or disables the record within the bounds. */
  lemma FailedAccounted(policy: Policy, r: FailureRecord, now: nat, reports: nat)
    requires !r.disabled && Accounted(policy, r, reports)
    ensures var next := Failed(policy, r, now);
      if next.disabled then LeastReports(policy) <= reports + 1 <= MostReports(policy)
      else Accounted(policy, next, reports + 1)
  {
    SettledAccounted(policy, r, now, reports);
    var settled := Settled(r, now);
    MulStep(policy.threshold, settled.cooldowns);
    MulMonotone(policy.threshold - 1, Ended(settled), settled.cooldowns);
  }

  lemma {:induction false} AccountHolds(policy: Policy, events: seq<Event>)
    requires !IsDisabled(After(policy, events))
    ensures match After(policy, events)
            case None => Reports(events) == 0
            case Some(r) => Accounted(policy, r, Reports(events))
  {
    if events != [] {
      var before := events[..|events| - 1];
      assert events == before + [events[|events| - 1]];
      if IsDisabled(After(policy, before)) {
        DisabledStays(policy, before, events[|events| - 1]);
      }
      AccountHolds(policy, before);
      match events[|events| - 1]
      case Reported(now) =>
        var r := After(policy, before);
        FailedAccounted(policy, if r.Some? then r.value else FRESH, now, Reports(before));
      case LookedAt(now) =>
        if After(policy, before).Some? {
          SettledAccounted(policy, After(policy, before).value, now, Reports(before));
        }
    }
  }

  lemma DisabledStays(policy: Policy, events: seq<Event>, next: Event)
    requires IsDisabled(After(policy, events))
    ensures After(policy, events + [next]) == After(policy, events)
  {
    assert (events + [next])[..|events|] == events;
  }

  /** The report that disables a key is at least the T*D-th and at most the (T*D + (T-1)*(D-1))-th,
      whatever the timing of reports and scans. */
  lemma DisablingReportBounds(policy: Policy, events: seq<Event>, now: nat)
    requires !IsDisabled(After(policy, events))
    requires IsDisabled(After(policy, events + [Reported(now)]))
    ensures LeastReports(policy) <= Reports(events) + 1 <= MostReports(policy)
  {
    AccountHolds(policy, events);
    assert (events + [Reported(now)])[..|events|] == events;
    var r := After(policy, events);
    FailedAccounted(policy, if r.Some? then r.value else FRESH, now, Reports(events));
  }

  lemma {:induction false} DisabledNeedsLeast(policy: Policy, events: seq<Event>)
    requires IsDisabled(After(policy, events))
    ensures LeastReports(policy) <= Reports(events)
  {
    var before := events[..|events| - 1];
    assert events == before + [events[|events| - 1]];
    if IsDisabled(After(policy, before)) {
      DisabledNeedsLeast(policy, before);
    } else {
      DisablingReportBounds(policy, before, events[|events| - 1].now);
    }
  }

  /** Fewer than T*D reports never disable a key; T*D + (T-1)*(D-1) of them always have. */
  lemma ReportCountDecides(policy: Policy, events: seq<Event>)
    ensures Reports(events) < LeastReports(policy) ==> !IsDisabled(After(policy, events))
    ensures Reports(events) >= MostReports(policy) ==> IsDisabled(After(policy, events))
  {
    if IsDisabled(After(policy, events)) {
      DisabledNeedsLeast(policy, events);
    } else {
      AccountHolds(policy, events);
      if After(policy, events).Some? {
        var r := After(policy, events).value;
        MulStep(policy.threshold, policy.disableAfter - 1);
        MulMonotone(policy.threshold, r.cooldowns, policy.disableAfter - 1);
        MulMonotone(policy.threshold - 1, Ended(r), policy.disableAfter - 1);
      } else {
        MulMonotone(policy.threshold, 1, policy.disableAfter);
        MulMonotone(policy.threshold - 1, 0, policy.disableAfter - 1);
      }
    }
  }

  // ----- who is held back, and until when -----

  function Time(e: Event): nat {
    match e
    case Reported(now) => now
    case LookedAt(now) => now
  }

  /** The clock never runs backwards. */
  ghost predicate Chronological(events: seq<Event>) {
    forall i, j :: 0 <= i < j < |events| ==> Time(events[i]) <= Time(events[j])
  }

  /** Everything happens within the given span of time. */
  ghost predicate Within(events: seq<Event>, first: nat, last: nat) {
    forall e :: e in events ==> first <= Time(e) <= last
  }

  function Cooldowns(r: Option<FailureRecord>): nat {
    if r.Some? then r.value.cooldowns else 0
  }

  /** The k-th event is a report that begins one more cooldown. */
  predicate StartsCooldown(policy: Policy, events: seq<Event>, k: nat)
    requires k < |events|
  {
    events[k].Reported? && Cooldowns(After(policy, events[..k + 1])) > Cooldowns(After(policy, events[..k]))
  }

  /** Some cooldown began less than its length ago. */
  ghost predicate RecentCooldown(policy: Policy, events: seq<Event>, t: nat) {
    exists k :: 0 <= k < |events| && StartsCooldown(policy, events, k) && t < Time(events[k]) + policy.cooldown
  }

  lemma RecentSnoc(policy: Policy, events: seq<Event>, e: Event, t: nat)
    ensures RecentCooldown(policy, events + [e], t) <==>
      RecentCooldown(policy, events, t)
      || (StartsCooldown(policy, events + [e], |events|) && t < Time(e) + policy.cooldown)
  {
    var longer := events + [e];
    forall k | 0 <= k < |events|
      ensures StartsCooldown(policy, longer, k) <==> StartsCooldown(policy, events, k)
      ensures longer[k] == events[k]
    {
      assert longer[..k] == events[..k] && longer[..k + 1] == events[..k + 1];
    }
    if k :| 0 <= k < |events| && StartsCooldown(policy, events, k) && t < Time(events[k]) + policy.cooldown {
      assert StartsCooldown(policy, longer, k);
    }
  }

  /** When a report begins a cooldown, and when the cooldown of any record ends after it: a threshold met while a
      cooldown still runs renews it, any other report leaves a running cooldown alone and forgets one that is over. */
  lemma CooldownEnds(policy: Policy, r: FailureRecord, now: nat)
    requires !r.disabled
    ensures var next := Failed(policy, r, now);
      var over := r.cooldownUntil.Some? && r.cooldownUntil.value <= now;
      var begins := (if over then 0 else r.failures) + 1 >= policy.threshold;
      && next.cooldowns == r.cooldowns + (if begins then 1 else 0)
      && (next.disabled <==> begins && r.cooldowns + 1 >= policy.disableAfter)
      && next.cooldownUntil ==
           (if next.disabled then None else if begins then Some(now + policy.cooldown)
            else if over then None else r.cooldownUntil)
  {
  }

  lemma OneMoreHeld(policy: Policy, events: seq<Event>, e: Event, t: nat)
    requires !IsDisabled(After(policy, events + [e])) && !IsDisabled(After(policy, events)) && Time(e) <= t
    requires Within(events, 0, Time(e))
    requires Blocked(After(policy, events), t) <==> RecentCooldown(policy, events, t)
    ensures Blocked(After(policy, events + [e]), t) <==> RecentCooldown(policy, events + [e], t)
  {
    assert (events + [e])[..|events|] == events && (events + [e])[..|events| + 1] == events + [e];
    RecentSnoc(policy, events, e, t);
    var before := After(policy, events);
    if e.Reported? {
      CooldownEnds(policy, if before.Some? then before.value else FRESH, e.now);
      if StartsCooldown(policy, events + [e], |events|) && RecentCooldown(policy, events, t) {
        var k :| 0 <= k < |events| && StartsCooldown(policy, events, k) && t < Time(events[k]) + policy.cooldown;
        assert events[k] in events;
      }
    }
  }

  /** By a clock that never runs backwards, a key is passed over exactly while it is disabled or less than a
      cooldown's length has gone by since a report began a cooldown. */
  lemma {:induction false} HeldBackExactly(policy: Policy, events: seq<Event>, t: nat)
    requires Chronological(events) && Within(events, 0, t)
    ensures Blocked(After(policy, events), t) <==>
      IsDisabled(After(policy, events)) || RecentCooldown(policy, events, t)
  {
    if events != [] && !IsDisabled(After(policy, events)) {
      var init, e := events[..|events| - 1], events[|events| - 1];
      assert events == init + [e] && e in events;
      assert forall x :: x in init ==> x in events;
      forall x | x in init
        ensures Time(x) <= Time(e)
      {
        var i :| 0 <= i < |init| && init[i] == x;
        assert events[i] == x;
      }
      if IsDisabled(After(policy, init)) {
        DisabledStays(policy, init, e);
      }
      HeldBackExactly(policy, init, t);
      OneMoreHeld(policy, init, e, t);
    }
  }

  /** A disabled key is passed over at every time. */
  lemma DisabledIsHeld(policy: Policy, events: seq<Event>, t: nat)
    requires Reports(events) >= MostReports(policy)
    ensures Blocked(After(policy, events), t)
  {
    ReportCountDecides(policy, events);
  }

  lemma AtLeastOnce(policy: Policy)
    ensures policy.threshold <= LeastReports(policy)
  {
    MulMonotone(policy.threshold, 1, policy.disableAfter);
  }

  /** With fewer reports than the threshold a key is never passed over, whatever the clock says; the report that
      meets the threshold begins a cooldown or disables. */
  lemma FewReportsNeverHold(policy: Policy, events: seq<Event>, now: nat, t: nat)
    ensures Reports(events) < policy.threshold ==> !Blocked(After(policy, events), t)
    ensures Reports(events) + 1 == policy.threshold ==> StartsCooldown(policy, events + [Reported(now)], |events|)
  {
    AtLeastOnce(policy);
    ReportCountDecides(policy, events);
    if Reports(events) < policy.threshold {
      AccountHolds(policy, events);
      var r := After(policy, events);
      if r.Some? {
        if r.value.cooldowns >= 1 {
          MulMonotone(policy.threshold, 1, r.value.cooldowns);
        }
        assert r.value.cooldowns == 0 && r.value.cooldownUntil == None;
      }
      AfterSnoc(policy, events, now);
      assert (events + [Reported(now)])[..|events|] == events;
      assert (events + [Reported(now)])[..|events| + 1] == events + [Reported(now)];
    }
  }

  function Repeat(n: nat, now: nat): (events: seq<Event>)
    ensures |events| == n
  {
    if n == 0 then [] else Repeat(n - 1, now) + [Reported(now)]
  }

  /** When the k-th cooldown of the schedule below begins: as soon as the one before it is over. */
  function CooldownStart(policy: Policy, k: nat): nat {
    if k <= 1 then 0 else CooldownStart(policy, k - 1) + policy.cooldown
  }

  /** A schedule that wastes `wasted` reports inside every cooldown before letting it run out. */
  function Schedule(policy: Policy, cooldowns: nat, wasted: nat): seq<Event> {
    if cooldowns == 0 then []
    else
      Schedule(policy, cooldowns - 1, wasted)
      + Repeat(if cooldowns == 1 then 0 else wasted, CooldownStart(policy, cooldowns - 1))
      + Repeat(policy.threshold, CooldownStart(policy, cooldowns))
  }

  lemma {:induction false} ReportsAppend(a: seq<Event>, b: seq<Event>)
    ensures Reports(a + b) == Reports(a) + Reports(b)
  {
    if b == [] {
      assert a + b == a;
    } else {
      assert (a + b)[..|a + b| - 1] == a + b[..|b| - 1];
      ReportsAppend(a, b[..|b| - 1]);
    }
  }

  lemma {:induction false} RepeatReports(n: nat, now: nat)
    ensures Reports(Repeat(n, now)) == n
  {
    if n > 0 {
      RepeatReports(n - 1, now);
      assert Repeat(n, now)[..n - 1] == Repeat(n - 1, now);
    }
  }

  /** The record the next report starts from. */
  function Current(policy: Policy, events: seq<Event>, now: nat): FailureRecord {
    var r := After(policy, events);
    Settled(if r.Some? then r.value else FRESH, now)
  }

  lemma AfterSnoc(policy: Policy, events: seq<Event>, now: nat)
    ensures var before := After(policy, events);
      After(policy, events + [Reported(now)]) == Some(Failed(policy, if before.Some? then before.value else FRESH, now))
  {
    assert (events + [Reported(now)])[..|events|] == events;
  }

  lemma AfterOneMore(policy: Policy, events: seq<Event>, n: nat, now: nat)
    requires n > 0
    ensures var before := After(policy, events + Repeat(n - 1, now));
      After(policy, events + Repeat(n, now)) == Some(Failed(policy, if before.Some? then before.value else FRESH, now))
  {
    AfterSnoc(policy, events + Repeat(n - 1, now), now);
    assert events + Repeat(n, now) == events + Repeat(n - 1, now) + [Reported(now)];
  }

  /** A report below the threshold adds one to the failures of the settled record. */
  lemma OneMoreFailure(policy: Policy, r: FailureRecord, now: nat)
    requires !r.disabled && Settled(r, now).failures + 1 < policy.threshold
    ensures var s := Settled(r, now); Failed(policy, r, now) == s.(failures := s.failures + 1)
    ensures Settled(Failed(policy, r, now), now) == Failed(policy, r, now)
  {
  }

  lemma NoneRepeated(events: seq<Event>, now: nat)
    ensures events + Repeat(0, now) == events
  {
  }

  /** Reports at one instant add up until the threshold is met. */
  lemma {:induction false} RepeatAfter(policy: Policy, events: seq<Event>, n: nat, now: nat)
    requires !IsDisabled(After(policy, events)) && n > 0
    requires Current(policy, events, now).failures + n < policy.threshold
    ensures var s := Current(policy, events, now);
      After(policy, events + Repeat(n, now)) == Some(s.(failures := s.failures + n))
  {
    AfterOneMore(policy, events, n, now);
    if n > 1 {
      RepeatAfter(policy, events, n - 1, now);
    } else {
      NoneRepeated(events, now);
    }
    var before := After(policy, events + Repeat(n - 1, now));
    OneMoreFailure(policy, if before.Some? then before.value else FRESH, now);
  }

  /** A full threshold of reports at one instant, from a record without pending failures, is one cooldown. */
  lemma ThresholdAfter(policy: Policy, events: seq<Event>, now: nat)
    requires !IsDisabled(After(policy, events))
    requires Current(policy, events, now).failures == 0
    ensures After(policy, events + Repeat(policy.threshold, now)) ==
      Some(Failed(policy, Current(policy, events, now).(failures := policy.threshold - 1), now))
  {
    AfterOneMore(policy, events, policy.threshold, now);
    if policy.threshold > 1 {
      RepeatAfter(policy, events, policy.threshold - 1, now);
    } else {
      NoneRepeated(events, now);
    }
  }

  /** How the schedule's cost grows with each cooldown. */
  function Cost(threshold: nat, wasted: nat, cooldowns: nat): nat {
    if cooldowns == 0 then 0
    else Cost(threshold, wasted, cooldowns - 1) + threshold + if cooldowns == 1 then 0 else wasted
  }

  lemma {:induction false} CostClosedForm(threshold: nat, wasted: nat, cooldowns: nat)
    requires 1 <= cooldowns
    ensures Cost(threshold, wasted, cooldowns) == threshold * cooldowns + wasted * (cooldowns - 1)
  {
    if cooldowns > 1 {
      CostClosedForm(threshold, wasted, cooldowns - 1);
      MulStep(threshold, cooldowns - 1);
      MulStep(wasted, cooldowns - 2);
    } else {
      assert Cost(threshold, wasted, 0) == 0;
    }
  }

  lemma GrowsBy(before: seq<Event>, m: nat, earlier: nat, n: nat, now: nat)
    ensures Reports(before + Repeat(m, earlier) + Repeat(n, now)) == Reports(before) + m + n
  {
    ReportsAppend(before, Repeat(m, earlier));
    ReportsAppend(before + Repeat(m, earlier), Repeat(n, now));
    RepeatReports(m, earlier);
    RepeatReports(n, now);
  }

  lemma {:induction false} ScheduleReports(policy: Policy, cooldowns: nat, wasted: nat)
    ensures Reports(Schedule(policy, cooldowns, wasted)) == Cost(policy.threshold, wasted, cooldowns)
  {
    if cooldowns > 0 {
      ScheduleReports(policy, cooldowns - 1, wasted);
      GrowsBy(Schedule(policy, cooldowns - 1, wasted), if cooldowns == 1 then 0 else wasted,
        CooldownStart(policy, cooldowns - 1), policy.threshold, CooldownStart(policy, cooldowns));
    }
  }

  /** Where the schedule stands after its k-th cooldown began. */
  function Cooling(policy: Policy, k: nat): FailureRecord {
    if k < policy.disableAfter then FailureRecord(0, k, Some(CooldownStart(policy, k + 1)), false, 0)
    else FailureRecord(0, k, None, true, 0)
  }

  /** Reports wasted inside the k-th cooldown are forgotten; a threshold of them at its end starts the next one. */
  lemma NextCooldown(policy: Policy, before: seq<Event>, k: nat, earlier: nat, now: nat, wasted: nat)
    requires 1 <= k < policy.disableAfter && wasted < policy.threshold
    requires After(policy, before) == Some(FailureRecord(0, k, Some(now), false, 0)) && earlier < now
    ensures After(policy, before + Repeat(wasted, earlier) + Repeat(policy.threshold, now)) ==
      Some(if k + 1 < policy.disableAfter then FailureRecord(0, k + 1, Some(now + policy.cooldown), false, 0)
           else FailureRecord(0, k + 1, None, true, 0))
  {
    if wasted > 0 {
      RepeatAfter(policy, before, wasted, earlier);
    } else {
      assert before + Repeat(wasted, earlier) == before;
    }
    ThresholdAfter(policy, before + Repeat(wasted, earlier), now);
  }

  lemma FirstCooldown(policy: Policy, wasted: nat)
    requires policy.cooldown > 0
    ensures After(policy, Schedule(policy, 1, wasted)) == Some(Cooling(policy, 1))
  {
    var none: seq<Event> := [];
    assert Schedule(policy, 0, wasted) == none;
    assert Schedule(policy, 1, wasted) == none + Repeat(policy.threshold, 0);
    assert After(policy, none) == None;
    ThresholdAfter(policy, none, 0);
    assert CooldownStart(policy, 2) == policy.cooldown;
  }

  lemma {:induction false} ScheduleRuns(policy: Policy, cooldowns: nat, wasted: nat)
    requires policy.cooldown > 0 && 1 <= cooldowns <= policy.disableAfter && wasted < policy.threshold
    ensures After(policy, Schedule(policy, cooldowns, wasted)) == Some(Cooling(policy, cooldowns))
  {
    if cooldowns == 1 {
      FirstCooldown(policy, wasted);
    } else {
      ScheduleRuns(policy, cooldowns - 1, wasted);
      ScheduleStep(policy, cooldowns, wasted);
    }
  }

  lemma ScheduleStep(policy: Policy, k: nat, wasted: nat)
    requires policy.cooldown > 0 && 2 <= k <= policy.disableAfter && wasted < policy.threshold
    requires After(policy, Schedule(policy, k - 1, wasted)) == Some(Cooling(policy, k - 1))
    ensures After(policy, Schedule(policy, k, wasted)) == Some(Cooling(policy, k))
  {
    var earlier, now, before := CooldownStart(policy, k - 1), CooldownStart(policy, k), Schedule(policy, k - 1, wasted);
    var events := before + Repeat(wasted, earlier) + Repeat(policy.threshold, now);
    NextCooldown(policy, before, k - 1, earlier, now, wasted);
    assert After(policy, events) == Some(Cooling(policy, k));
    assert Schedule(policy, k, wasted) == events;
  }

  lemma {:induction false} RepeatAtOnce(n: nat, now: nat)
    ensures Within(Repeat(n, now), now, now)
  {
    if n > 0 {
      RepeatAtOnce(n - 1, now);
    }
  }

  lemma OneAfterTheOther(a: seq<Event>, b: seq<Event>, first: nat, between: nat, last: nat)
    requires Chronological(a) && Within(a, first, between) && Chronological(b) && Within(b, between, last)
    requires first <= between <= last
    ensures Chronological(a + b) && Within(a + b, first, last)
  {
    forall i, j | 0 <= i < j < |a + b|
      ensures Time((a + b)[i]) <= Time((a + b)[j])
    {
      if i < |a| <= j {
        assert a[i] in a && b[j - |a|] in b;
      }
    }
  }

  lemma ScheduleGrows(policy: Policy, before: seq<Event>, wasted: nat, earlier: nat, now: nat)
    requires Chronological(before) && Within(before, 0, earlier) && earlier <= now
    ensures var events := before + Repeat(wasted, earlier) + Repeat(policy.threshold, now);
      Chronological(events) && Within(events, 0, now)
  {
    RepeatAtOnce(wasted, earlier);
    RepeatAtOnce(policy.threshold, now);
    OneAfterTheOther(before, Repeat(wasted, earlier), 0, earlier, earlier);
    OneAfterTheOther(before + Repeat(wasted, earlier), Repeat(policy.threshold, now), 0, now, now);
  }

  /** The schedule can be kept: its reports come in the order of their times. */
  lemma {:induction false} ScheduleChronological(policy: Policy, cooldowns: nat, wasted: nat)
    ensures Chronological(Schedule(policy, cooldowns, wasted))
    ensures Within(Schedule(policy, cooldowns, wasted), 0, CooldownStart(policy, cooldowns))
  {
    if cooldowns > 0 {
      ScheduleChronological(policy, cooldowns - 1, wasted);
      var before := Schedule(policy, cooldowns - 1, wasted);
      var earlier, now := CooldownStart(policy, cooldowns - 1), CooldownStart(policy, cooldowns);
      ScheduleGrows(policy, before, if cooldowns == 1 then 0 else wasted, earlier, now);
    }
  }

  lemma ScheduleDisables(policy: Policy, wasted: nat)
    requires policy.cooldown > 0 && wasted < policy.threshold
    ensures var events := Schedule(policy, policy.disableAfter, wasted);
      && Chronological(events) && IsDisabled(After(policy, events))
      && Reports(events) == policy.threshold * policy.disableAfter + wasted * (policy.disableAfter - 1)
  {
    ScheduleRuns(policy, policy.disableAfter, wasted);
    ScheduleChronological(policy, policy.disableAfter, wasted);
    ScheduleReports(policy, policy.disableAfter, wasted);
    CostClosedForm(policy.threshold, wasted, policy.disableAfter);
  }

  /** Both bounds are met exactly by a clock that never runs backwards: some run is disabled by its T*D-th
      report, another only by the last possible one. */
  lemma BoundsAreAttained(policy: Policy)
    requires policy.cooldown > 0
    ensures exists events ::
      Chronological(events) && IsDisabled(After(policy, events)) && Reports(events) == LeastReports(policy)
    ensures exists events ::
      Chronological(events) && IsDisabled(After(policy, events)) && Reports(events) == MostReports(policy)
  {
    ScheduleDisables(policy, 0);
    ScheduleDisables(policy, policy.threshold - 1);
  }
}
