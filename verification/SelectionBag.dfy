/** The random bag that hands out pool indices without replacement (src/proxy.rs). */
module SelectionBags {
  import opened Prelude

  /** The bag as a value: the pool generation it was filled for and what is left of the round. */
  datatype BagValue = BagValue(generation: nat, remaining: seq<nat>)

  function Range(len: nat): (r: seq<nat>)
    ensures |r| == len
    ensures forall i :: 0 <= i < len ==> r[i] == i
  {
    seq(len, i => i)
  }

  /** One of each index of a pool of `len` entries. */
  ghost function Indices(len: nat): multiset<nat> {
    multiset(Range(len))
  }

  lemma InIndices(len: nat, i: nat)
    ensures i in Indices(len) <==> i < len
    ensures Indices(len)[i] <= 1
    ensures |Indices(len)| == len
    decreases len
  {
    if len > 0 {
      InIndices(len - 1, i);
      assert Range(len) == Range(len - 1) + [len - 1];
    }
  }

  predicate Refills(b: BagValue, generation: nat) {
    b.generation != generation || b.remaining == []
  }

  /** `after` and `index` are a possible outcome of drawing from `b` for a pool of that generation and length. */
  ghost predicate NextIndex(b: BagValue, generation: nat, len: nat, after: BagValue, index: nat) {
    && after.generation == generation
    && if Refills(b, generation)
       then multiset(after.remaining + [index]) == Indices(len)
       else b.remaining == after.remaining + [index]
  }

  /** What is left of a round never repeats an index or leaves the pool, and is never a full round. */
  ghost predicate ValidFor(b: BagValue, generation: nat, len: nat) {
    b.generation == generation ==>
      multiset(b.remaining) <= Indices(len) && (b.remaining == [] || |b.remaining| < len)
  }

  /** A draw from a valid bag stays inside the pool and leaves a valid bag. */
  lemma NextIndexSafe(b: BagValue, generation: nat, len: nat, after: BagValue, index: nat)
    requires ValidFor(b, generation, len) && NextIndex(b, generation, len, after, index)
    ensures index < len
    ensures ValidFor(after, generation, len)
    ensures index !in after.remaining
  {
    InIndices(len, index);
    var all := after.remaining + [index];
    var counts: multiset<nat> := multiset(all);
    assert counts == multiset(after.remaining) + multiset{index};
    assert counts <= Indices(len);
    assert counts[index] <= 1;
    assert index in counts;
    assert |counts| == |all|;
  }

  class SelectionBag {
    var generation: nat
    var remaining: seq<nat>

    function Value(): BagValue
      reads this
    {
      BagValue(generation, remaining)
    }

    constructor ()
      ensures Value() == BagValue(0, [])
    {
      generation, remaining := 0, [];
    }

    method Reset(generation: nat)
      modifies this
      ensures Value() == BagValue(generation, [])
    {
      this.generation := generation;
      remaining := [];
    }

    /** None only for an empty pool; otherwise the drawn index and whether the bag was refilled first. */
    method Next(generation: nat, len: nat) returns (r: Option<(nat, bool)>)
      modifies this
      ensures len == 0 ==> r == None && Value() == old(Value())
      ensures len > 0 ==> r.Some? && r.value.1 == old(Refills(Value(), generation))
      ensures len > 0 ==> NextIndex(old(Value()), generation, len, Value(), r.value.0)
    {
      if len == 0 {
        return None;
      }
      var refilled := false;
      if this.generation != generation || remaining == [] {
        this.generation := generation;
        remaining := Shuffled(Range(len));
        refilled := true;
      }
      var index := remaining[|remaining| - 1];
      ghost var before := remaining;
      remaining := remaining[..|remaining| - 1];
      assert before == remaining + [index];
      r := Some((index, refilled));
    }
  }

  /** Any permutation of `s`. */
  method Shuffled(s: seq<nat>) returns (r: seq<nat>)
    ensures multiset(r) == multiset(s)
    ensures |r| == |s|
  {
    r := [];
    var rest := s;
    while rest != []
      invariant multiset(r) + multiset(rest) == multiset(s)
      invariant |r| + |rest| == |s|
      decreases |rest|
    {
      var k :| 0 <= k < |rest|;
      assert rest == rest[..k] + [rest[k]] + rest[k + 1..];
      r := r + [rest[k]];
      rest := rest[..k] + rest[k + 1..];
    }
  }

  /** `draws[i]` is drawn from `bags[i]` and leaves `bags[i + 1]`: no reset and no pool change between. */
  ghost predicate Trace(bags: seq<BagValue>, draws: seq<nat>, generation: nat, len: nat) {
    && |bags| == |draws| + 1
    && forall i :: 0 <= i < |draws| ==> NextIndex(bags[i], generation, len, bags[i + 1], draws[i])
  }

  /** Until the round ends, the draws plus what remains are exactly what remained at its start. */
  lemma {:induction false} RoundConserved(bags: seq<BagValue>, draws: seq<nat>, generation: nat, len: nat, k: nat)
    requires Trace(bags, draws, generation, len)
    requires bags[0].generation == generation
    requires k <= |draws| && k <= |bags[0].remaining|
    ensures bags[k].generation == generation
    ensures |bags[k].remaining| == |bags[0].remaining| - k
    ensures multiset(draws[..k]) + multiset(bags[k].remaining) == multiset(bags[0].remaining)
  {
    if k > 0 {
      RoundConserved(bags, draws, generation, len, k - 1);
      assert NextIndex(bags[k - 1], generation, len, bags[k], draws[k - 1]);
      assert draws[..k] == draws[..k - 1] + [draws[k - 1]];
    }
  }

  /** A refill and its first draw leave all indices but one. */
  lemma RefillLeaves(b: BagValue, generation: nat, len: nat, after: BagValue, index: nat)
    requires Refills(b, generation) && NextIndex(b, generation, len, after, index)
    ensures |after.remaining| == len - 1
  {
    InIndices(len, 0);
    assert |multiset(after.remaining + [index])| == |after.remaining + [index]|;
  }

  lemma TraceTail(bags: seq<BagValue>, draws: seq<nat>, generation: nat, len: nat)
    requires Trace(bags, draws, generation, len) && draws != []
    ensures Trace(bags[1..], draws[1..], generation, len)
  {
    forall i | 0 <= i < |draws[1..]|
      ensures NextIndex(bags[1..][i], generation, len, bags[1..][i + 1], draws[1..][i])
    {
      assert NextIndex(bags[i + 1], generation, len, bags[i + 2], draws[i + 1]);
    }
  }

  /** The draws of one full round, counted from the refill, are a permutation of the pool's indices. */
  lemma FullRound(bags: seq<BagValue>, draws: seq<nat>, generation: nat, len: nat)
    requires Trace(bags, draws, generation, len)
    requires 0 < len <= |draws| && Refills(bags[0], generation)
    ensures multiset(draws[..len]) == Indices(len)
  {
    assert NextIndex(bags[0], generation, len, bags[1], draws[0]);
    RefillLeaves(bags[0], generation, len, bags[1], draws[0]);
    TraceTail(bags, draws, generation, len);
    var rest := draws[1..];
    RoundConserved(bags[1..], rest, generation, len, len - 1);
    var left := bags[1..][len - 1].remaining;
    assert left == [];
    assert multiset(rest[..len - 1]) == multiset(bags[1].remaining);
    assert draws[..len] == [draws[0]] + rest[..len - 1];
  }

  /** No starvation: every index of the pool occurs in any 2 * len - 1 consecutive draws. */
  lemma NoStarvation(bags: seq<BagValue>, draws: seq<nat>, generation: nat, len: nat, start: nat, index: nat)
    requires Trace(bags, draws, generation, len)
    requires ValidFor(bags[0], generation, len)
    requires index < len && start + 2 * len - 1 <= |draws|
    ensures index in draws[start..start + 2 * len - 1]
  {
    TraceValid(bags, draws, generation, len, start);
    var b, d := bags[start..], draws[start..];
    assert Trace(b, d, generation, len);
    var left := if b[0].generation == generation then |b[0].remaining| else 0;
    if left > 0 {
      RoundConserved(b, d, generation, len, left);
    }
    FullRound(b[left..], d[left..], generation, len);
    InIndices(len, index);
    assert index in multiset(d[left..][..len]);
    assert d[left..][..len] == draws[start + left..start + left + len];
    var k :| 0 <= k < len && d[left..][..len][k] == index;
    assert draws[start..start + 2 * len - 1][left + k] == index;
  }

  lemma {:induction false} TraceValid(bags: seq<BagValue>, draws: seq<nat>, generation: nat, len: nat, k: nat)
    requires Trace(bags, draws, generation, len) && k <= |draws|
    requires ValidFor(bags[0], generation, len)
    ensures ValidFor(bags[k], generation, len)
  {
    if k > 0 {
      TraceValid(bags, draws, generation, len, k - 1);
      NextIndexSafe(bags[k - 1], generation, len, bags[k], draws[k - 1]);
    }
  }
}
