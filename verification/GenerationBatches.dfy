/** Splitting complex proxies into mihomo generations, with batches that shrink when listening ports
    cannot be reserved (src/mihomo.rs). */
module GenerationBatches {
  import opened Prelude

  datatype Reservation = Reserved | Exhausted | OtherError

  datatype PrepareError = NoBinary | NoPorts | BatchFailed

  /** A generation and the slice of the input it serves. */
  datatype Generation = Generation(id: nat, proxies: seq<string>)

  /** A local listener for one proxy. */
  datatype LocalNode = LocalNode(proxy: string, generation: nat)

  datatype Prepared = Prepared(generations: seq<Generation>, nodes: seq<LocalNode>)

  /** Ceiling division, as the number of batches is planned. */
  function BatchCount(nodes: nat, batchSize: nat): nat {
    if nodes == 0 then 0
    else
      var size := Max(batchSize, 1);
      (nodes + size - 1) / size
  }

  /** A configured size of zero counts as one. */
  lemma AtLeastOne(nodes: nat, batchSize: nat)
    ensures BatchCount(nodes, Max(batchSize, 1)) == BatchCount(nodes, batchSize)
  {
  }

  function Pow2(n: nat): nat {
    if n == 0 then 1 else 2 * Pow2(n - 1)
  }

  function Proxies(generations: seq<Generation>): seq<seq<string>> {
    seq(|generations|, i requires 0 <= i < |generations| => generations[i].proxies)
  }

  function NodesOf(g: Generation): (nodes: seq<LocalNode>)
    ensures |nodes| == |g.proxies|
  {
    seq(|g.proxies|, i requires 0 <= i < |g.proxies| => LocalNode(g.proxies[i], g.id))
  }

  function AllNodes(generations: seq<Generation>): seq<LocalNode> {
    if generations == [] then []
    else AllNodes(generations[..|generations| - 1]) + NodesOf(generations[|generations| - 1])
  }

  lemma SmallerFactor(a: nat, b: nat, size: nat)
    requires a * size < b * size
    ensures a < b
  {
    if a >= b {
      SameOrder(b, a, size);
    }
  }

  lemma SameOrder(a: nat, b: nat, size: nat)
    requires a <= b
    ensures a * size <= b * size
  {
  }

  /** Batches of at most `size` that cover `count` proxies are at least as many as planned. */
  lemma EnoughBatches(count: nat, size: nat, batches: nat)
    requires size > 0 && count <= batches * size
    ensures BatchCount(count, size) <= batches
  {
    var planned := (count + size - 1) / size;
    assert planned * size <= count + size - 1;
    Grow(batches, size);
    SmallerFactor(planned, batches + 1, size);
  }

  /** Full batches followed by one partial batch are exactly as many as planned. */
  lemma ExactlyPlanned(count: nat, size: nat, batches: nat)
    requires size > 0 && count > 0 && batches > 0
    requires (batches - 1) * size < count <= batches * size
    ensures BatchCount(count, size) == batches
  {
    EnoughBatches(count, size, batches);
    var planned := (count + size - 1) / size;
    assert planned * size + size > count + size - 1;
    SmallerFactor(batches - 1, planned, size);
  }

  lemma Halved(size: nat, was: nat, shrinks: nat, configured: nat)
    requires was * Pow2(shrinks) <= configured && 2 * size <= was
    ensures size * Pow2(shrinks + 1) <= configured
  {
    assert size * Pow2(shrinks + 1) == (2 * size) * Pow2(shrinks);
    assert (2 * size) * Pow2(shrinks) <= was * Pow2(shrinks);
  }

  /** How far the loop is: the batch size has at least halved at each shrink, no batch is larger than
      configured, and until the first shrink all batches but the last are full. */
  predicate Pace(configured: nat, active: nat, shrinks: nat, offset: nat, batches: nat, count: nat) {
    && 1 <= active && active * Pow2(shrinks) <= configured
    && offset <= count && offset <= batches * configured
    && (shrinks == 0 ==> active == configured)
    && (shrinks == 0 && offset < count ==> offset == batches * configured)
    && (shrinks == 0 && offset == count ==> 0 < batches && (batches - 1) * configured < offset)
  }

  lemma PaceHalved(configured: nat, active: nat, shrinks: nat, offset: nat, batches: nat, count: nat, size: nat)
    requires Pace(configured, active, shrinks, offset, batches, count)
    requires offset < count && 1 <= size && 2 * size <= active
    ensures Pace(configured, size, shrinks + 1, offset, batches, count)
  {
    Halved(size, active, shrinks, configured);
  }

  lemma PaceAdvanced(configured: nat, active: nat, shrinks: nat, offset: nat, batches: nat, count: nat, end: nat)
    requires Pace(configured, active, shrinks, offset, batches, count)
    requires offset < count && active <= configured && end == Min(offset + active, count)
    ensures Pace(configured, active, shrinks, end, batches + 1, count)
  {
    Grow(batches, configured);
  }

  /** What the pace says about the number of shrinks, and about the batches once everything is served. */
  lemma PaceKept(configured: nat, active: nat, shrinks: nat, offset: nat, batches: nat, count: nat)
    requires Pace(configured, active, shrinks, offset, batches, count) && count > 0
    ensures Pow2(shrinks) <= configured
    ensures offset == count ==> BatchCount(count, configured) <= batches
    ensures offset == count && shrinks == 0 ==> BatchCount(count, configured) == batches
  {
    assert configured > 0 by {
      PowPositive(shrinks);
      SameOrder(1, active, Pow2(shrinks));
    }
    SameOrder(1, active, Pow2(shrinks));
    if offset == count {
      EnoughBatches(count, configured, batches);
      if shrinks == 0 {
        ExactlyPlanned(count, configured, batches);
      }
    }
  }

  lemma {:induction false} PowPositive(n: nat)
    ensures Pow2(n) >= 1
  {
    if n > 0 {
      PowPositive(n - 1);
    }
  }

  /** The generations so far: numbered from `first`, none empty or too large, serving exactly `served` in
      order, with their listeners. */
  ghost predicate Served(
      generations: seq<Generation>, nodes: seq<LocalNode>, served: seq<string>, first: nat, configured: nat)
  {
    && Flatten(Proxies(generations)) == served && nodes == AllNodes(generations)
    && forall i :: 0 <= i < |generations| ==>
         generations[i].id == first + i && 0 < |generations[i].proxies| <= configured
  }

  lemma ServedMore(
      generations: seq<Generation>, nodes: seq<LocalNode>, served: seq<string>, first: nat, configured: nat,
      g: Generation)
    requires Served(generations, nodes, served, first, configured)
    requires g.id == first + |generations| && 0 < |g.proxies| <= configured
    ensures Served(generations + [g], nodes + NodesOf(g), served + g.proxies, first, configured)
  {
    Extend(generations, g);
  }

  // ----- which reservations are asked for -----

  /** One reservation that is asked for: where, how many ports, and the batch size in force. */
  datatype Attempt = Attempt(offset: nat, size: nat, limit: nat)

  function First(count: nat, batchSize: nat): Attempt {
    var limit := if batchSize == 0 then 1 else batchSize;
    Attempt(0, if limit <= count then limit else count, limit)
  }

  type Reserve = (nat, nat) -> Reservation

  predicate Shrinks(reserve: Reserve, a: Attempt) {
    reserve(a.offset, a.size) == Exhausted && a.size > 1
  }

  predicate Refused(reserve: Reserve, a: Attempt) {
    reserve(a.offset, a.size) == OtherError || (reserve(a.offset, a.size) == Exhausted && a.size <= 1)
  }

  predicate FailsToStart(reserve: Reserve, starts: nat -> bool, a: Attempt) {
    reserve(a.offset, a.size) == Reserved && !starts(a.offset)
  }

  predicate Serves(reserve: Reserve, starts: nat -> bool, a: Attempt) {
    reserve(a.offset, a.size) == Reserved && starts(a.offset)
  }

  /** The batch is served and it was the last. */
  predicate Succeeds(reserve: Reserve, starts: nat -> bool, count: nat, a: Attempt) {
    Serves(reserve, starts, a) && a.offset + a.size == count
  }

  /** After a shrink, half the batch that failed is asked for at the same place and nothing larger from then on;
      after a served batch, the next place is asked for as many ports as the limit and the rest allow. */
  predicate Leads(reserve: Reserve, starts: nat -> bool, count: nat, a: Attempt, b: Attempt) {
    || (Shrinks(reserve, a) && b == Attempt(a.offset, a.size / 2, a.size / 2))
    || (Serves(reserve, starts, a) && a.offset + a.size < count && b.offset == a.offset + a.size && b.limit == a.limit
        && b.size == if b.limit <= count - b.offset then b.limit else count - b.offset)
  }

  /** The log begins at the beginning, and each entry leads to the next. */
  ghost predicate Chain(reserve: Reserve, starts: nat -> bool, count: nat, batchSize: nat, tried: seq<Attempt>) {
    && tried != [] && tried[0] == First(count, batchSize)
    && (forall i :: 0 <= i < |tried| - 1 ==> Leads(reserve, starts, count, tried[i], tried[i + 1]))
  }

  /** The log leads to the place and the limit at hand. */
  ghost predicate Trail(reserve: Reserve, starts: nat -> bool, count: nat, batchSize: nat, tried: seq<Attempt>,
                        offset: nat, limit: nat) {
    || (tried == [] && offset == 0 && limit == Max(batchSize, 1))
    || (Chain(reserve, starts, count, batchSize, tried)
        && var a := tried[|tried| - 1];
           && 1 <= a.size && a.offset + a.size <= count
           && (|| (Shrinks(reserve, a) && offset == a.offset && limit == a.size / 2)
               || (Serves(reserve, starts, a) && offset == a.offset + a.size && limit == a.limit)))
  }

  lemma TrailGrows(reserve: Reserve, starts: nat -> bool, count: nat, batchSize: nat, tried: seq<Attempt>,
                   offset: nat, limit: nat) returns (longer: seq<Attempt>)
    requires Trail(reserve, starts, count, batchSize, tried, offset, limit) && offset < count && limit >= 1
    ensures Chain(reserve, starts, count, batchSize, longer)
    ensures longer[|longer| - 1] == Attempt(offset, Min(offset + limit, count) - offset, limit)
  {
    longer := tried + [Attempt(offset, Min(offset + limit, count) - offset, limit)];
    forall i | 0 <= i < |longer| - 1
      ensures Leads(reserve, starts, count, longer[i], longer[i + 1])
    {
      if i < |tried| - 1 {
        assert Leads(reserve, starts, count, tried[i], tried[i + 1]);
      }
    }
  }

  lemma TrailShrinks(reserve: Reserve, starts: nat -> bool, count: nat, batchSize: nat, tried: seq<Attempt>,
                     offset: nat, limit: nat)
    requires Chain(reserve, starts, count, batchSize, tried)
    requires var a := tried[|tried| - 1];
      Shrinks(reserve, a) && a.offset == offset && a.offset + a.size <= count && limit == a.size / 2
    ensures Trail(reserve, starts, count, batchSize, tried, offset, limit)
  {
  }

  lemma TrailServes(reserve: Reserve, starts: nat -> bool, count: nat, batchSize: nat, tried: seq<Attempt>,
                    offset: nat, limit: nat)
    requires Chain(reserve, starts, count, batchSize, tried)
    requires var a := tried[|tried| - 1];
      Serves(reserve, starts, a) && a.offset + a.size == offset <= count && 1 <= a.size && limit == a.limit
    ensures Trail(reserve, starts, count, batchSize, tried, offset, limit)
  {
  }

  lemma TrailEnds(reserve: Reserve, starts: nat -> bool, count: nat, batchSize: nat, tried: seq<Attempt>, limit: nat,
                  r: Result<Option<Prepared>, PrepareError>)
    requires count > 0 && r.Ok? && Trail(reserve, starts, count, batchSize, tried, count, limit)
    ensures Explained(reserve, starts, count, batchSize, tried, r)
  {
  }

  /** Everything is served: the batches join up to the input in order with a listener for each proxy, are numbered
      consecutively and stay within the configured size, are at least as many as planned, and exactly that many
      if the size never shrank. */
  ghost predicate Delivered(p: Prepared, proxies: seq<string>, batchSize: nat, first: nat, shrinks: nat) {
    && Flatten(Proxies(p.generations)) == proxies && p.nodes == AllNodes(p.generations)
    && (forall i :: 0 <= i < |p.generations| ==>
          p.generations[i].id == first + i && 0 < |p.generations[i].proxies| <= Max(batchSize, 1))
    && BatchCount(|proxies|, batchSize) <= |p.generations|
    && (shrinks == 0 ==> |p.generations| == BatchCount(|proxies|, batchSize))
  }

  lemma Delivers(generations: seq<Generation>, nodes: seq<LocalNode>, proxies: seq<string>, batchSize: nat, first: nat,
                 active: nat, shrinks: nat)
    requires proxies != [] && Served(generations, nodes, proxies[..|proxies|], first, Max(batchSize, 1))
    requires Pace(Max(batchSize, 1), active, shrinks, |proxies|, |generations|, |proxies|)
    ensures Delivered(Prepared(generations, nodes), proxies, batchSize, first, shrinks)
    ensures Pow2(shrinks) <= Max(batchSize, 1)
  {
    PaceKept(Max(batchSize, 1), active, shrinks, |proxies|, |generations|, |proxies|);
    AtLeastOne(|proxies|, batchSize);
    assert proxies[..|proxies|] == proxies;
  }

  /** What the log says about the result: it ends with the batch that finished, was refused, or did not start. */
  ghost predicate Explained(reserve: Reserve, starts: nat -> bool, count: nat, batchSize: nat, tried: seq<Attempt>,
                            r: Result<Option<Prepared>, PrepareError>) {
    && Chain(reserve, starts, count, batchSize, tried) && tried[|tried| - 1].size >= 1
    && match r
       case Ok(_) => Succeeds(reserve, starts, count, tried[|tried| - 1])
       case Err(NoPorts) => Refused(reserve, tried[|tried| - 1])
       case Err(BatchFailed) => FailsToStart(reserve, starts, tried[|tried| - 1])
       case Err(NoBinary) => false
  }

  ghost predicate AlwaysWorks(reserve: Reserve, starts: nat -> bool) {
    && (forall o, n :: n >= 1 ==> reserve(o, n) == Reserved || (reserve(o, n) == Exhausted && n > 1))
    && (forall o :: starts(o))
  }

  /** Each outcome comes exactly if the last reservation asked for went that way; and if no reservation fails
      otherwise than for want of descriptors, single ports can always be reserved, and every batch starts,
      then everything is served. */
  lemma ExplainedExactly(reserve: Reserve, starts: nat -> bool, count: nat, batchSize: nat, tried: seq<Attempt>,
                         r: Result<Option<Prepared>, PrepareError>)
    requires Explained(reserve, starts, count, batchSize, tried, r)
    ensures var last := tried[|tried| - 1];
      && (r.Ok? <==> Succeeds(reserve, starts, count, last))
      && (r == Err(NoPorts) <==> Refused(reserve, last))
      && (r == Err(BatchFailed) <==> FailsToStart(reserve, starts, last))
    ensures AlwaysWorks(reserve, starts) ==> r.Ok?
  {
  }

  // ----- the loop -----

  /** What is to be done, and what has been done of it. */
  datatype Job = Job(proxies: seq<string>, batchSize: nat, first: nat, reserve: Reserve, starts: nat -> bool)

  datatype Progress = Progress(
    generations: seq<Generation>, nodes: seq<LocalNode>, offset: nat, active: nat, shrinks: nat, tried: seq<Attempt>)

  ghost predicate Going(j: Job, p: Progress) {
    var configured, count := Max(j.batchSize, 1), |j.proxies|;
    && p.offset <= count && 1 <= p.active <= configured
    && Pace(configured, p.active, p.shrinks, p.offset, |p.generations|, count)
    && Served(p.generations, p.nodes, j.proxies[..p.offset], j.first, configured)
    && Trail(j.reserve, j.starts, count, j.batchSize, p.tried, p.offset, p.active)
  }

  function Ask(j: Job, p: Progress): Attempt
    requires p.offset <= |j.proxies|
  {
    Attempt(p.offset, Min(p.offset + p.active, |j.proxies|) - p.offset, p.active)
  }

  lemma Starts(j: Job) returns (p: Progress)
    requires j.proxies != []
    ensures p == Progress([], [], 0, Max(j.batchSize, 1), 0, []) && Going(j, p)
  {
    p := Progress([], [], 0, Max(j.batchSize, 1), 0, []);
  }

  lemma Asked(j: Job, p: Progress)
    requires Going(j, p) && p.offset < |j.proxies|
    ensures Chain(j.reserve, j.starts, |j.proxies|, j.batchSize, p.tried + [Ask(j, p)])
    ensures Pow2(p.shrinks) <= Max(j.batchSize, 1)
    ensures 1 <= Ask(j, p).size <= p.active
  {
    var _ := TrailGrows(j.reserve, j.starts, |j.proxies|, j.batchSize, p.tried, p.offset, p.active);
    PaceKept(Max(j.batchSize, 1), p.active, p.shrinks, p.offset, |p.generations|, |j.proxies|);
  }

  lemma GoesOnSmaller(j: Job, p: Progress, size: nat) returns (q: Progress)
    requires Going(j, p) && p.offset < |j.proxies| && Shrinks(j.reserve, Ask(j, p)) && size == Ask(j, p).size / 2
    ensures q == Progress(p.generations, p.nodes, p.offset, size, p.shrinks + 1, p.tried + [Ask(j, p)])
    ensures Going(j, q)
  {
    var a, count := Ask(j, p), |j.proxies|;
    Asked(j, p);
    PaceHalved(Max(j.batchSize, 1), p.active, p.shrinks, p.offset, |p.generations|, count, size);
    TrailShrinks(j.reserve, j.starts, count, j.batchSize, p.tried + [a], p.offset, size);
    q := Progress(p.generations, p.nodes, p.offset, size, p.shrinks + 1, p.tried + [a]);
  }

  lemma GoesOnServed(j: Job, p: Progress, g: Generation, end: nat) returns (q: Progress)
    requires Going(j, p) && p.offset < |j.proxies| && Serves(j.reserve, j.starts, Ask(j, p))
    requires end == p.offset + Ask(j, p).size
    requires g == Generation(j.first + |p.generations|, j.proxies[p.offset..end])
    ensures q == Progress(
      p.generations + [g], p.nodes + NodesOf(g), end, p.active, p.shrinks, p.tried + [Ask(j, p)])
    ensures Going(j, q)
  {
    var a, count, configured := Ask(j, p), |j.proxies|, Max(j.batchSize, 1);
    Asked(j, p);
    ServedMore(p.generations, p.nodes, j.proxies[..p.offset], j.first, configured, g);
    assert j.proxies[..p.offset] + g.proxies == j.proxies[..end];
    PaceAdvanced(configured, p.active, p.shrinks, p.offset, |p.generations|, count, end);
    TrailServes(j.reserve, j.starts, count, j.batchSize, p.tried + [a], end, p.active);
    q := Progress(p.generations + [g], p.nodes + NodesOf(g), end, p.active, p.shrinks, p.tried + [a]);
  }

  lemma Arrives(j: Job, p: Progress)
    requires Going(j, p) && p.offset == |j.proxies| && j.proxies != []
    ensures var done := Prepared(p.generations, p.nodes);
      && Delivered(done, j.proxies, j.batchSize, j.first, p.shrinks)
      && Explained(j.reserve, j.starts, |j.proxies|, j.batchSize, p.tried, Ok(Some(done)))
    ensures Pow2(p.shrinks) <= Max(j.batchSize, 1)
  {
    var done := Prepared(p.generations, p.nodes);
    Delivers(p.generations, p.nodes, j.proxies, j.batchSize, j.first, p.active, p.shrinks);
    TrailEnds(j.reserve, j.starts, |j.proxies|, j.batchSize, p.tried, p.active, Ok(Some(done)));
  }

  class MihomoManager {
    var nextGeneration: nat

    constructor ()
      ensures nextGeneration == 1
    {
      nextGeneration := 1;
    }

    /** Prepares one batch under the next generation number, or fails after using the number up. */
    method PrepareBatch(batch: seq<string>, starts: bool) returns (r: Option<Generation>)
      modifies this
      ensures nextGeneration == old(nextGeneration) + 1
      ensures r == if starts then Some(Generation(old(nextGeneration), batch)) else None
    {
      var id := nextGeneration;
      nextGeneration := nextGeneration + 1;
      r := if starts then Some(Generation(id, batch)) else None;
    }

    /** `reserve(offset, size)` and `starts(offset)` are the outcomes of reserving ports and starting a batch.
        Ports are asked for again at the same offset only with a smaller size; `tried` logs what was asked for. */
    method PrepareGeneration(proxies: seq<string>, enabled: bool, haveBinary: bool, batchSize: nat,
                             reserve: (nat, nat) -> Reservation, starts: nat -> bool)
        returns (r: Result<Option<Prepared>, PrepareError>, ghost shrinks: nat, ghost tried: seq<Attempt>)
      modifies this
      ensures proxies == [] || !enabled <==> r == Ok(None)
      ensures r == Err(NoBinary) <==> proxies != [] && enabled && !haveBinary
      ensures proxies != [] && enabled && haveBinary ==>
        Explained(reserve, starts, |proxies|, batchSize, tried, r)
      ensures r.Ok? && r.value.Some? ==>
        Delivered(r.value.value, proxies, batchSize, old(nextGeneration), shrinks)
      ensures Pow2(shrinks) <= Max(batchSize, 1)
    {
      shrinks, tried := 0, [];
      if proxies == [] || !enabled {
        return Ok(None), 0, [];
      }
      if !haveBinary {
        return Err(NoBinary), 0, [];
      }
      var active := Max(batchSize, 1);
      var generations: seq<Generation> := [];
      var nodes := [];
      var offset := 0;
      ghost var j := Job(proxies, batchSize, nextGeneration, reserve, starts);
      ghost var p := Starts(j);
      while offset < |proxies|
        invariant Going(j, p) && p == Progress(generations, nodes, offset, active, shrinks, tried)
        invariant nextGeneration == j.first + |generations|
        decreases |proxies| - offset, active
      {
        var end := Min(offset + active, |proxies|);
        var batch := proxies[offset..end];
        Asked(j, p);
        tried := tried + [Ask(j, p)];
        var outcome := reserve(offset, |batch|);
        if outcome == Exhausted && |batch| > 1 {
          active := Max(|batch| / 2, 1);
          shrinks := shrinks + 1;
          p := GoesOnSmaller(j, p, active);
          continue;
        }
        if outcome != Reserved {
          return Err(NoPorts), shrinks, tried;
        }
        var prepared := PrepareBatch(batch, starts(offset));
        if prepared == None {
          return Err(BatchFailed), shrinks, tried;
        }
        p := GoesOnServed(j, p, prepared.value, end);
        nodes := nodes + NodesOf(prepared.value);
        generations := generations + [prepared.value];
        offset := end;
      }
      Arrives(j, p);
      r := Ok(Some(Prepared(generations, nodes)));
    }
  }

  lemma Grow(n: nat, size: nat)
    ensures (n + 1) * size == n * size + size
  {
  }

  lemma Extend(generations: seq<Generation>, g: Generation)
    ensures Flatten(Proxies(generations + [g])) == Flatten(Proxies(generations)) + g.proxies
    ensures AllNodes(generations + [g]) == AllNodes(generations) + NodesOf(g)
  {
    FlattenAppend(Proxies(generations), g.proxies);
    assert Proxies(generations + [g]) == Proxies(generations) + [g.proxies];
    assert (generations + [g])[..|generations|] == generations;
  }

  /** The listeners come out in input order, one for each proxy. */
  lemma {:induction false} NodesInOrder(generations: seq<Generation>)
    ensures |AllNodes(generations)| == |Flatten(Proxies(generations))|
    ensures forall i :: 0 <= i < |AllNodes(generations)| ==>
      AllNodes(generations)[i].proxy == Flatten(Proxies(generations))[i]
  {
    if generations != [] {
      var init, last := generations[..|generations| - 1], generations[|generations| - 1];
      NodesInOrder(init);
      assert generations == init + [last];
      Extend(init, last);
    }
  }

  /** Doubling back: a batch size of s allows at most floor(log2(s)) shrinks. */
  lemma {:induction false} ShrinksAreLogarithmic(shrinks: nat, bits: nat, configured: nat)
    requires Pow2(shrinks) <= configured < Pow2(bits + 1)
    ensures shrinks <= bits
  {
    if shrinks > bits {
      PowGrows(bits + 1, shrinks);
    }
  }

  lemma {:induction false} PowGrows(a: nat, b: nat)
    requires a <= b
    ensures Pow2(a) <= Pow2(b)
  {
    if a < b {
      PowGrows(a, b - 1);
    }
  }
}
