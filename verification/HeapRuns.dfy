/**
  Whole runs of the allocator: any sequence of `malloc` calls and of `free` calls on live blocks.
  The ledger is the client's own record of the blocks it holds; it is kept without looking at the
  chunk list, and the main theorem says that the two always agree: on every build as long as no call
  of `malloc` finds only the last chunk, in use, and without this condition on the builds that round.
 */
module HeapRuns {
  import opened HeapChunks
  import opened HeapSpec
  import opened HeapSteps
  import Heap

  /** A block the client holds: payload address and rounded size. */
  type Holding = (nat, nat)

  datatype Op = Malloc(request: nat) | Free(block: Holding)

  /**
    `requested` is what the client asked for at each address it holds; `charged` adds up size and header
    of every block handed out and takes them off when it is freed.
   */
  datatype Account = Account(chunks: seq<Chunk>, ledger: set<Holding>, requested: map<nat, nat>, charged: int)

  /** A heap as the linker script and platform_init_heap set it up. */
  datatype Config = Config(build: Build, start: nat, total: nat)

  predicate SaneConfig(c: Config) {
    Sane(c.build) && 0 < c.start && c.start + c.total < c.build.modulus && c.build.header <= c.total
  }

  /** A rounding build whose heap size is a multiple of 4; _heap_end is the last byte, so total is one less. */
  predicate AlignedConfig(c: Config) {
    SaneConfig(c) && c.build.rounds && c.total % 4 == 3
  }

  /** The heaps of the two kinds of build that these conditions cover. */
  lemma BuildsCovered(start: nat, total: nat)
    ensures AlignedConfig(Config(ALIGNED_BUILD, start, total)) <==>
              0 < start && start + total < 0x1_0000_0000 && 12 <= total && total % 4 == 3
    ensures SaneConfig(Config(AVR_BUILD, start, total)) <==> 0 < start && start + total < 0x1_0000 && 5 <= total
  {
  }

  function Start(c: Config): Account
    requires SaneConfig(c)
  {
    Account([Chunk(c.start, c.total - c.build.header, true)], {}, map[], 0)
  }

  function Next(c: Config, a: Account, op: Op): Account
    requires SaneConfig(c) && |a.chunks| > 0
  {
    var h := c.build.header;
    match op
    case Malloc(request) =>
      var r := HeapSpec.Malloc(a.chunks, request, c.build);
      var n := RoundUp(request, c.build);
      if r.outcome.Block? then
        var ptr := r.outcome.ptr;
        Account(r.chunks, a.ledger + {(ptr, n)}, a.requested[ptr := request], a.charged + n + h)
      else a.(chunks := r.chunks)
    case Free(block) =>
      var chunks := Heap.FreeAt(a.chunks, block.0, c.start, c.total, c.build);
      Account(chunks, a.ledger - {block}, a.requested - {block.0}, a.charged - block.1 - h)
  }

  /** What the source asks of its callers: the search finds a chunk, and only live blocks are freed. */
  predicate Allowed(c: Config, a: Account, op: Op)
    requires SaneConfig(c) && |a.chunks| > 0
  {
    match op
    case Malloc(request) => request < c.build.modulus && !HeapSpec.Malloc(a.chunks, request, c.build).outcome.Crash?
    case Free(block) => block in a.ledger
  }

  /** The account after a run; None when some call was not allowed. */
  datatype Reached = None | Some(a: Account)

  function Run(c: Config, ops: seq<Op>): Reached
    requires SaneConfig(c)
  {
    if ops == [] then Some(Start(c))
    else
      var before := Run(c, ops[..|ops| - 1]);
      var op := ops[|ops| - 1];
      if before.None? || |before.a.chunks| == 0 || !Allowed(c, before.a, op) then None
      else Some(Next(c, before.a, op))
  }

  /** The client holds one block for each address it asked for, of the rounded size of that request. */
  predicate Recorded(b: Build, ledger: set<Holding>, requested: map<nat, nat>)
    requires Sane(b)
  {
    && (forall x :: x in ledger ==> x.0 in requested && x.1 == RoundUp(requested[x.0], b))
    && (forall p :: p in requested ==> requested[p] < b.modulus && (p, RoundUp(requested[p], b)) in ledger)
  }

  lemma RecordAdd(b: Build, ledger: set<Holding>, requested: map<nat, nat>, ptr: nat, request: nat)
    requires Sane(b) && Recorded(b, ledger, requested) && request < b.modulus
    requires forall x :: x in ledger ==> x.0 != ptr
    ensures Recorded(b, ledger + {(ptr, RoundUp(request, b))}, requested[ptr := request])
  {
  }

  lemma RecordRemove(b: Build, ledger: set<Holding>, requested: map<nat, nat>, block: Holding)
    requires Sane(b) && Recorded(b, ledger, requested) && block in ledger
    ensures Recorded(b, ledger - {block}, requested - {block.0})
  {
  }

  /** The chunks cover the heap and no two neighbours are free. */
  predicate InOrder(c: Config, s: seq<Chunk>) {
    Tiles(s, c.start, c.total, c.build.header) && Coalesced(s)
  }

  /** The client's blocks and what it is charged for them are those of the chunk list. */
  ghost predicate Agrees(a: Account, header: nat) {
    a.ledger == Live(a.chunks, header) && a.charged == LiveBytes(a.chunks, header)
  }

  ghost predicate Good(c: Config, a: Account)
    requires Sane(c.build)
  {
    InOrder(c, a.chunks) && Agrees(a, c.build.header) && Recorded(c.build, a.ledger, a.requested)
  }

  lemma RoundsToFour(request: nat, b: Build)
    requires Sane(b) && b.rounds && request < b.modulus
    ensures RoundUp(request, b) == (if request < b.modulus - 4 then request + (4 - request % 4) else 0)
    ensures RoundUp(request, b) % 4 == 0
  {
    RoundUpIs(request, b);
  }

  lemma RoundingCovers(request: nat, b: Build)
    requires Sane(b) && request < b.modulus
    ensures RoundUp(request, b) >= request <==> !b.rounds || request < b.modulus - 4
    ensures b.rounds && request >= b.modulus - 4 ==> RoundUp(request, b) == 0
  {
    if b.rounds {
      RoundsToFour(request, b);
    }
  }

  /**
    The chunk that malloc hands out, on any list, covers the request exactly when the rounding does not
    wrap around size_t, and is empty when it does.
   */
  lemma BlockCoversRequest(s: seq<Chunk>, request: nat, b: Build) returns (k: nat)
    requires |s| > 0 && Sane(b) && request < b.modulus && HeapSpec.Malloc(s, request, b).outcome.Block?
    ensures var r := HeapSpec.Malloc(s, request, b);
      && k < |r.chunks| && !r.chunks[k].free && r.outcome.ptr == r.chunks[k].addr + b.header
      && (r.chunks[k].size >= request <==> !b.rounds || request < b.modulus - 4)
      && (r.chunks[k].size < request ==> r.chunks[k].size == 0)
  {
    k := FirstStop(s, RoundUp(request, b), 0);
    RoundingCovers(request, b);
  }

  /**
    Where it does not: the largest request on a fresh heap is answered with an empty block, and the
    test of the first chunk's size then refuses whatever malloc comes next.
   */
  lemma EmptyBlock(c: Config, later: nat)
    requires AlignedConfig(c) && c.total > 2 * c.build.header
    ensures var r := HeapSpec.Malloc(Start(c).chunks, c.build.modulus - 1, c.build);
      && r.outcome == Block(c.start + c.build.header) && r.chunks[0].size == 0
      && HeapSpec.Malloc(r.chunks, later, c.build) == Result(r.chunks, Null)
  {
    var s := Start(c).chunks;
    RoundingCovers(c.build.modulus - 1, c.build);
    assert Stops(s, 0, 0);
    assert FirstStop(s, 0, 0) == 0;
  }

  /** Some free chunk has room for n bytes. */
  predicate Fits(s: seq<Chunk>, n: nat) {
    exists i :: 0 <= i < |s| && s[i].free && s[i].size >= n
  }

  /** Something free fits, or the last chunk is free or too small. */
  predicate Sound(s: seq<Chunk>, n: nat)
    requires |s| > 0
  {
    Fits(s, n) || s[|s| - 1].free || s[|s| - 1].size < n
  }

  /** The search stops on a chunk in use exactly when nothing free fits but the last chunk, in use, does. */
  lemma StopsOnLiveIff(s: seq<Chunk>, n: nat)
    requires |s| > 0
    ensures var k := FirstStop(s, n, 0);
      (k < |s| && !s[k].free) <==> !Sound(s, n)
  {
    var k := FirstStop(s, n, 0);
    if Fits(s, n) {
      var i :| 0 <= i < |s| && s[i].free && s[i].size >= n;
      assert Stops(s, i, n);
      assert i != |s| - 1 || s[|s| - 1].free;
    }
    assert !s[|s| - 1].free && s[|s| - 1].size >= n ==> Stops(s, |s| - 1, n);
  }

  lemma MallocInOrder(c: Config, s: seq<Chunk>, request: nat)
    requires SaneConfig(c) && InOrder(c, s) && !HeapSpec.Malloc(s, request, c.build).outcome.Crash?
    ensures InOrder(c, HeapSpec.Malloc(s, request, c.build).chunks)
  {
    var n, h := RoundUp(request, c.build), c.build.header;
    if request != 0 && s[0].size != 0 {
      var k := FirstStop(s, n, 0);
      TakeKeepsTiles(s, k, n, c.start, c.total, h);
      TakeKeepsCoalesced(s, k, n, h);
    }
  }

  lemma MallocAgrees(c: Config, a: Account, request: nat)
    requires SaneConfig(c) && |a.chunks| > 0 && Agrees(a, c.build.header) && Allowed(c, a, Malloc(request))
    requires Sound(a.chunks, RoundUp(request, c.build))
    ensures Agrees(Next(c, a, Malloc(request)), c.build.header)
  {
    var n, h := RoundUp(request, c.build), c.build.header;
    if HeapSpec.Malloc(a.chunks, request, c.build).outcome.Block? {
      StopsOnLiveIff(a.chunks, n);
      TakeLive(a.chunks, FirstStop(a.chunks, n, 0), n, h);
    }
  }

  lemma MallocRecords(c: Config, a: Account, request: nat)
    requires SaneConfig(c) && Good(c, a) && Allowed(c, a, Malloc(request))
    requires Sound(a.chunks, RoundUp(request, c.build))
    ensures var t := Next(c, a, Malloc(request)); Recorded(c.build, t.ledger, t.requested)
  {
    var r := HeapSpec.Malloc(a.chunks, request, c.build);
    if r.outcome.Block? {
      FreshIffSound(c, a, request);
      RecordAdd(c.build, a.ledger, a.requested, r.outcome.ptr, request);
    }
  }

  lemma MallocKeepsGood(c: Config, a: Account, request: nat)
    requires SaneConfig(c) && Good(c, a) && Allowed(c, a, Malloc(request))
    requires Sound(a.chunks, RoundUp(request, c.build))
    ensures Good(c, Next(c, a, Malloc(request)))
  {
    MallocInOrder(c, a.chunks, request);
    MallocAgrees(c, a, request);
    MallocRecords(c, a, request);
  }

  /** The returned address is new to the client exactly when the call is sound. */
  lemma FreshIffSound(c: Config, a: Account, request: nat)
    requires SaneConfig(c) && Good(c, a)
    requires HeapSpec.Malloc(a.chunks, request, c.build).outcome.Block?
    ensures var ptr := HeapSpec.Malloc(a.chunks, request, c.build).outcome.ptr;
      (forall x :: x in a.ledger ==> x.0 != ptr) <==> Sound(a.chunks, RoundUp(request, c.build))
  {
    var n, h := RoundUp(request, c.build), c.build.header;
    var k := FirstStop(a.chunks, n, 0);
    StopsOnLiveIff(a.chunks, n);
    LiveChunkHeld(a.chunks, k, h);
    Heap.Distinct(a.chunks, c.start, c.total, h);
  }

  lemma MallocKeepsTail(c: Config, a: Account, request: nat)
    requires AlignedConfig(c) && TailFree(a.chunks) && Allowed(c, a, Malloc(request))
    ensures Sound(a.chunks, RoundUp(request, c.build))
    ensures TailFree(Next(c, a, Malloc(request)).chunks)
  {
    var n, h := RoundUp(request, c.build), c.build.header;
    if request != 0 && a.chunks[0].size != 0 {
      RoundsToFour(request, c.build);
      TakeKeepsTail(a.chunks, FirstStop(a.chunks, n, 0), n, h);
    }
  }

  lemma LiveChunkHeld(s: seq<Chunk>, i: nat, header: nat)
    requires i < |s|
    ensures !s[i].free ==> (s[i].addr + header, s[i].size) in Live(s, header)
  {
  }

  lemma HeaderFound(c: Config, s: seq<Chunk>, i: nat)
    requires SaneConfig(c) && Tiles(s, c.start, c.total, c.build.header) && i < |s|
    ensures Heap.FreeAt(s, s[i].addr + c.build.header, c.start, c.total, c.build) == Freed(s, i, c.build.header)
  {
    Within(s, c.start, c.total, c.build.header, i);
    var ptr := s[i].addr + c.build.header;
    assert ptr + c.build.modulus - c.build.header == s[i].addr + c.build.modulus;
    AddModulus(s[i].addr, c.build.modulus);
    assert Heap.HeaderOf(ptr, c.build) == s[i].addr;
    Heap.Distinct(s, c.start, c.total, c.build.header);
  }

  lemma AddModulus(x: nat, m: nat)
    requires x < m
    ensures (x + m) % m == x
  {
    assert (x + m) - 1 * m == x;
  }

  lemma FreedInOrder(c: Config, s: seq<Chunk>, i: nat)
    requires InOrder(c, s) && i < |s|
    ensures InOrder(c, Freed(s, i, c.build.header))
  {
    FreedKeepsTiles(s, i, c.start, c.total, c.build.header);
    TwoPassesSuffice(s, i, c.build.header);
  }

  lemma LiveChunk(s: seq<Chunk>, block: Holding, header: nat) returns (i: nat)
    requires block in Live(s, header)
    ensures i < |s| && !s[i].free && block == (s[i].addr + header, s[i].size)
  {
    i :| 0 <= i < |s| && !s[i].free && block == (s[i].addr + header, s[i].size);
  }

  lemma FreeFinds(c: Config, s: seq<Chunk>, block: Holding) returns (i: nat)
    requires SaneConfig(c) && Tiles(s, c.start, c.total, c.build.header) && block in Live(s, c.build.header)
    ensures i < |s| && !s[i].free && block == (s[i].addr + c.build.header, s[i].size)
    ensures Heap.FreeAt(s, block.0, c.start, c.total, c.build) == Freed(s, i, c.build.header)
  {
    i := LiveChunk(s, block, c.build.header);
    HeaderFound(c, s, i);
  }

  lemma FreedAgrees(c: Config, a: Account, i: nat, block: Holding)
    requires SaneConfig(c) && InOrder(c, a.chunks) && Agrees(a, c.build.header) && i < |a.chunks|
    requires !a.chunks[i].free && block == (a.chunks[i].addr + c.build.header, a.chunks[i].size)
    ensures var h, t := c.build.header, Freed(a.chunks, i, c.build.header);
      Agrees(Account(t, a.ledger - {block}, a.requested - {block.0}, a.charged - block.1 - h), h)
  {
    FreedLive(a.chunks, i, c.start, c.total, c.build.header);
  }

  lemma FreeKeepsGood(c: Config, a: Account, block: Holding)
    requires SaneConfig(c) && Good(c, a) && block in a.ledger
    ensures Good(c, Next(c, a, Free(block)))
    ensures c.build.rounds && TailFree(a.chunks) ==> TailFree(Next(c, a, Free(block)).chunks)
  {
    var i := FreeFinds(c, a.chunks, block);
    FreedInOrder(c, a.chunks, i);
    FreedAgrees(c, a, i, block);
    RecordRemove(c.build, a.ledger, a.requested, block);
    if c.build.rounds && TailFree(a.chunks) {
      FreedKeepsTail(a.chunks, i, c.build.header);
    }
  }

  /** Every malloc of the run was sound when it was called. */
  predicate SoundRun(c: Config, ops: seq<Op>)
    requires SaneConfig(c)
  {
    ops == [] ||
    var before, op := Run(c, ops[..|ops| - 1]), ops[|ops| - 1];
    && SoundRun(c, ops[..|ops| - 1])
    && (op.Malloc? && before.Some? && |before.a.chunks| > 0 ==> Sound(before.a.chunks, RoundUp(op.request, c.build)))
  }

  lemma {:induction false} RunsAreGood(c: Config, ops: seq<Op>)
    requires SaneConfig(c) && Run(c, ops).Some? && SoundRun(c, ops)
    ensures Good(c, Run(c, ops).a)
  {
    if ops == [] {
      var a := Start(c);
      assert LiveBytes(a.chunks, c.build.header) == 0;
    } else {
      RunsAreGood(c, ops[..|ops| - 1]);
      var a := Run(c, ops[..|ops| - 1]).a;
      match ops[|ops| - 1]
      case Malloc(request) => MallocKeepsGood(c, a, request);
      case Free(block) => FreeKeepsGood(c, a, block);
    }
  }

  /** On a rounding build the last chunk is free in every reachable state, and so every run is sound. */
  lemma {:induction false} AlignedRunsAreSound(c: Config, ops: seq<Op>)
    requires AlignedConfig(c) && Run(c, ops).Some?
    ensures SoundRun(c, ops) && TailFree(Run(c, ops).a.chunks)
  {
    if ops != [] {
      AlignedRunsAreSound(c, ops[..|ops| - 1]);
      RunsAreGood(c, ops[..|ops| - 1]);
      NextKeepsTail(c, Run(c, ops[..|ops| - 1]).a, ops[|ops| - 1]);
    }
  }

  lemma NextKeepsTail(c: Config, a: Account, op: Op)
    requires AlignedConfig(c) && Good(c, a) && TailFree(a.chunks) && Allowed(c, a, op)
    ensures op.Malloc? ==> Sound(a.chunks, RoundUp(op.request, c.build))
    ensures TailFree(Next(c, a, op).chunks)
  {
    match op
    case Malloc(request) => MallocKeepsTail(c, a, request);
    case Free(block) => FreeKeepsGood(c, a, block);
  }

  /** Two blocks with at least a header between the end of one and the start of the other. */
  predicate Disjoint(x: Holding, y: Holding, header: nat) {
    x.0 + x.1 + header <= y.0 || y.0 + y.1 + header <= x.0
  }

  /** The block has room for the request, exactly when the request is not among the last four of size_t. */
  predicate Covers(b: Build, x: Holding, request: nat)
    requires Sane(b)
  {
    x.1 >= request <==> !b.rounds || request < b.modulus - 4
  }

  lemma LedgerDisjoint(c: Config, a: Account, x: Holding, y: Holding)
    requires SaneConfig(c) && Good(c, a) && x in a.ledger && y in a.ledger && x != y
    ensures Disjoint(x, y, c.build.header)
  {
    var h := c.build.header;
    var i := LiveChunk(a.chunks, x, h);
    var j := LiveChunk(a.chunks, y, h);
    if i < j {
      Ordered(a.chunks, c.start, c.total, h, i, j);
    } else {
      Ordered(a.chunks, c.start, c.total, h, j, i);
    }
  }

  lemma LedgerInside(c: Config, a: Account, x: Holding)
    requires SaneConfig(c) && Good(c, a) && x in a.ledger
    ensures c.start + c.build.header <= x.0 && x.0 + x.1 <= c.start + c.total
  {
    var i := LiveChunk(a.chunks, x, c.build.header);
    Within(a.chunks, c.start, c.total, c.build.header, i);
  }

  /** heap_usage leaves out the last chunk: it reports all that is in use exactly when that one is free. */
  lemma UsageExactIff(s: seq<Chunk>, header: nat)
    requires |s| > 0 && header > 0
    ensures LiveBytes(s[..|s| - 1], header) == LiveBytes(s, header) <==> s[|s| - 1].free
  {
    var last := s[|s| - 1];
    assert s == s[..|s| - 1] + [last];
    BytesAppend(s[..|s| - 1], [last], header);
    if last.free {
      NoneLive([last], header);
    } else {
      OneLive(last, [], header);
      assert [last] + [] == [last];
    }
  }

  /**
    Heap safety on every build, for runs whose malloc calls are sound: the chunks tile the heap and
    their bytes add up to it, no two neighbours are free, the client's blocks are exactly the live
    chunks, they lie inside the heap and apart from each other, and each covers what was asked for
    exactly when rounding that request did not wrap.
   */
  lemma HeapSafety(c: Config, ops: seq<Op>)
    requires SaneConfig(c) && Run(c, ops).Some? && SoundRun(c, ops)
    ensures var a, h := Run(c, ops).a, c.build.header;
      && Tiles(a.chunks, c.start, c.total, h) && AllBytes(a.chunks, h) == c.total
      && Coalesced(a.chunks)
      && a.ledger == Live(a.chunks, h) && a.charged == LiveBytes(a.chunks, h)
      && (forall x, y :: x in a.ledger && y in a.ledger && x != y ==> Disjoint(x, y, h))
      && (forall x :: x in a.ledger ==> c.start + h <= x.0 && x.0 + x.1 <= c.start + c.total)
      && (forall x :: x in a.ledger ==> x.0 in a.requested && Covers(c.build, x, a.requested[x.0]))
  {
    var a, h := Run(c, ops).a, c.build.header;
    RunsAreGood(c, ops);
    BytesSum(a.chunks, c.start, c.total, h);
    forall x, y | x in a.ledger && y in a.ledger && x != y
      ensures Disjoint(x, y, h)
    {
      LedgerDisjoint(c, a, x, y);
    }
    forall x | x in a.ledger
      ensures c.start + h <= x.0 && x.0 + x.1 <= c.start + c.total
    {
      LedgerInside(c, a, x);
    }
    forall x | x in a.ledger
      ensures x.0 in a.requested && Covers(c.build, x, a.requested[x.0])
    {
      RoundingCovers(a.requested[x.0], c.build);
    }
  }

  /**
    On a rounding build every allowed run is sound, so HeapSafety holds of it; the last chunk is free
    `heap_usage` is what the client is charged, and blocks of a heap that starts on a 4-byte boundary do so too.
   */
  lemma AlignedHeapSafety(c: Config, ops: seq<Op>)
    requires AlignedConfig(c) && Run(c, ops).Some?
    ensures SoundRun(c, ops)
    ensures var a := Run(c, ops).a;
      TailFree(a.chunks) && LiveBytes(a.chunks[..|a.chunks| - 1], c.build.header) == a.charged
    ensures c.start % 4 == 0 ==> forall x :: x in Run(c, ops).a.ledger ==> x.0 % 4 == 0
  {
    AlignedRunsAreSound(c, ops);
    RunsAreGood(c, ops);
    var a, h := Run(c, ops).a, c.build.header;
    UsageExactIff(a.chunks, h);
    if c.start % 4 == 0 {
      LiveAligned(a.chunks, c.start, c.total, h);
    }
  }

  lemma LiveAligned(s: seq<Chunk>, start: nat, total: nat, header: nat)
    requires Tiles(s, start, total, header) && TailFree(s) && start % 4 == 0 && header % 4 == 0
    ensures forall x :: x in Live(s, header) ==> x.0 % 4 == 0
  {
    forall x | x in Live(s, header)
      ensures x.0 % 4 == 0
    {
      var i := LiveChunk(s, x, header);
      AddressAligned(s, start, total, header, i);
    }
  }

  lemma {:induction false} AddressAligned(s: seq<Chunk>, start: nat, total: nat, header: nat, i: nat)
    requires Tiles(s, start, total, header) && TailFree(s) && i < |s| && start % 4 == 0 && header % 4 == 0
    ensures s[i].addr % 4 == 0
  {
    if i > 0 {
      AddressAligned(s, start, total, header, i - 1);
      assert Follows(s, i - 1, header);
    }
  }

  /** When everything has been freed the heap is one free chunk again, as platform_init_heap left it. */
  lemma AllFreedIsPristine(c: Config, ops: seq<Op>)
    requires SaneConfig(c) && Run(c, ops).Some? && SoundRun(c, ops) && Run(c, ops).a.ledger == {}
    ensures Run(c, ops).a == Start(c)
  {
    var a := Run(c, ops).a;
    RunsAreGood(c, ops);
    forall i | 0 <= i < |a.chunks|
      ensures a.chunks[i].free
    {
      LiveChunkHeld(a.chunks, i, c.build.header);
    }
    assert a.requested == map[];
    assert |a.chunks| > 1 ==> !BothFree(a.chunks, 0);
    NoneLive(a.chunks, c.build.header);
  }

  // ----- when malloc fails -----

  /**
    On any list, the search runs off the end exactly when it is reached, no free chunk is large enough,
    and the last chunk, even in use, does not stop it.
   */
  lemma CrashIffNoFit(s: seq<Chunk>, request: nat, b: Build)
    requires Sane(b) && |s| > 0
    ensures var n, last := RoundUp(request, b), s[|s| - 1];
      HeapSpec.Malloc(s, request, b).outcome.Crash? <==>
        request != 0 && s[0].size != 0 && !Fits(s, n) && (last.free || last.size < n)
  {
    var n := RoundUp(request, b);
    var k := FirstStop(s, n, 0);
    if Fits(s, n) {
      var i :| 0 <= i < |s| && s[i].free && s[i].size >= n;
      assert Stops(s, i, n);
    }
    assert !s[|s| - 1].free && s[|s| - 1].size >= n ==> Stops(s, |s| - 1, n);
  }

  /** On a fresh heap: the requests whose rounded size is more than the heap holds, the heap size among them. */
  lemma FreshHeapCrash(c: Config, request: nat)
    requires SaneConfig(c) && c.total > c.build.header
    ensures HeapSpec.Malloc(Start(c).chunks, request, c.build).outcome.Crash? <==>
              request != 0 && RoundUp(request, c.build) > c.total - c.build.header
    ensures request == c.total && (c.build.rounds ==> c.total < c.build.modulus - 4) ==>
              HeapSpec.Malloc(Start(c).chunks, request, c.build).outcome.Crash?
  {
    var s := Start(c).chunks;
    CrashIffNoFit(s, request, c.build);
    assert Fits(s, RoundUp(request, c.build)) <==> s[0].size >= RoundUp(request, c.build);
    if request < c.build.modulus {
      RoundingCovers(request, c.build);
    }
  }

  /** Without rounding, as on the AVR builds, the tail can be handed out, and then it is handed out again. */
  lemma AvrHandsOutTwice(c: Config)
    requires SaneConfig(c) && !c.build.rounds && c.total > c.build.header
    ensures var n := c.total - c.build.header;
      var first := HeapSpec.Malloc(Start(c).chunks, n, c.build);
      && first.outcome == Block(c.start + c.build.header)
      && HeapSpec.Malloc(first.chunks, n, c.build).outcome == first.outcome
  {
    var n, s := c.total - c.build.header, Start(c).chunks;
    assert Stops(s, 0, n);
    assert FirstStop(s, n, 0) == 0;
    var t := HeapSpec.Malloc(s, n, c.build).chunks;
    assert Stops(t, 0, n);
    assert FirstStop(t, n, 0) == 0;
  }

  // ----- when malloc returns null -----

  /**
    On any list, malloc returns null exactly for a request of 0, with an empty first chunk, or when the
    chunk at which the search stops is too large to be taken whole and too small to be split.
   */
  lemma NullIff(s: seq<Chunk>, request: nat, b: Build)
    requires Sane(b) && |s| > 0
    ensures var n := RoundUp(request, b);
      HeapSpec.Malloc(s, request, b).outcome.Null? <==>
        request == 0 || s[0].size == 0 ||
        exists k :: 0 <= k < |s| && FirstStop(s, n, 0) == k && n < s[k].size <= n + b.header
  {
  }

  lemma RunNext(c: Config, ops: seq<Op>, op: Op)
    requires SaneConfig(c) && Run(c, ops).Some? && |Run(c, ops).a.chunks| > 0 && Allowed(c, Run(c, ops).a, op)
    ensures Run(c, ops + [op]) == Some(Next(c, Run(c, ops).a, op))
  {
    assert (ops + [op])[..|ops + [op]| - 1] == ops;
  }

  /** Taking the first chunk for n bytes and leaving the rest free. */
  lemma SplitTail(s: seq<Chunk>, k: nat, request: nat, b: Build)
    requires Sane(b) && request > 0 && k + 1 == |s| && s[0].size != 0
    requires forall i :: 0 <= i < k ==> !s[i].free
    requires s[k].free && s[k].size > RoundUp(request, b) + b.header
    ensures var n := RoundUp(request, b);
      HeapSpec.Malloc(s, request, b) == Result(Split(s, k, n, b.header), Block(s[k].addr + b.header))
  {
    var n := RoundUp(request, b);
    assert Stops(s, k, n);
    assert forall i :: 0 <= i < k ==> !Stops(s, i, n);
    assert FirstStop(s, n, 0) == k;
  }

  predicate ThreeChunks(c: Config, s: seq<Chunk>) {
    var h := c.build.header;
    && c.total >= 3 * h + 16
    && s == [Chunk(c.start, 12, false), Chunk(c.start + 12 + h, 4, false),
             Chunk(c.start + 16 + 2 * h, c.total - 3 * h - 16, true)]
  }

  /** malloc(8) and then malloc(1) on a fresh heap of a rounding build. */
  lemma TwoBlocks(c: Config) returns (ops: seq<Op>, a: Account)
    requires AlignedConfig(c) && c.total > 4 * c.build.header + 24
    ensures Run(c, ops) == Some(a)
    ensures ThreeChunks(c, a.chunks) && (c.start + c.build.header, 12) in a.ledger
  {
    var h, b := c.build.header, c.build;
    RoundsToFour(8, b);
    RoundsToFour(1, b);
    var s0 := Start(c).chunks;
    SplitTail(s0, 0, 8, b);
    var s1 := [Chunk(c.start, 12, false), Chunk(c.start + 12 + h, c.total - 2 * h - 12, true)];
    assert Split(s0, 0, 12, h) == s1;
    RunNext(c, [], Malloc(8));
    SplitTail(s1, 1, 1, b);
    RunNext(c, [Malloc(8)], Malloc(1));
    ops := [Malloc(8), Malloc(1)];
    a := Next(c, Next(c, Start(c), Malloc(8)), Malloc(1));
    assert [] + [Malloc(8)] == [Malloc(8)] && [Malloc(8)] + [Malloc(1)] == ops;
  }

  /** Freeing the first of two blocks with free memory behind them. */
  lemma FreeFirst(c: Config, s: seq<Chunk>)
    requires SaneConfig(c) && |s| == 3 && !s[1].free
    requires s[0].addr == c.start && Follows(s, 0, c.build.header) && Follows(s, 1, c.build.header)
    requires s[2].addr + c.build.header + s[2].size == c.start + c.total
    ensures Heap.FreeAt(s, c.start + c.build.header, c.start, c.total, c.build) == s[0 := s[0].(free := true)]
  {
    HeaderFound(c, s, 0);
  }

  /** The search stops at a first chunk that is too large to be taken whole and too small to be split. */
  lemma StuckAtFirst(s: seq<Chunk>, request: nat, b: Build)
    requires Sane(b) && |s| > 0 && request > 0 && s[0].free
    requires RoundUp(request, b) < s[0].size <= RoundUp(request, b) + b.header
    ensures HeapSpec.Malloc(s, request, b) == Result(s, Null)
  {
    assert Stops(s, 0, RoundUp(request, b));
    assert FirstStop(s, RoundUp(request, b), 0) == 0;
  }

  /**
    malloc can fail although a large chunk is free. On every 4-byte build: malloc(8), malloc(1), free of
    the first block; then malloc(4) stops at the freed 12 bytes and returns null.
   */
  lemma NeedlessNull(c: Config) returns (ops: seq<Op>, a: Account)
    requires AlignedConfig(c) && c.total > 4 * c.build.header + 24
    ensures Run(c, ops) == Some(a)
    ensures var s, n := a.chunks, RoundUp(4, c.build);
      && |s| > 0 && s[0].size != 0 && HeapSpec.Malloc(s, 4, c.build) == Result(s, Null)
      && s[|s| - 1].free && s[|s| - 1].size > n + c.build.header
  {
    ops, a := TwoBlocks(c);
    FirstFreed(c, a);
    var op := Free((c.start + c.build.header, 12));
    RunNext(c, ops, op);
    ops, a := ops + [op], Next(c, a, op);
  }

  lemma FirstFreed(c: Config, a: Account)
    requires AlignedConfig(c) && c.total > 4 * c.build.header + 24
    requires ThreeChunks(c, a.chunks) && (c.start + c.build.header, 12) in a.ledger
    ensures var s, n := Next(c, a, Free((c.start + c.build.header, 12))).chunks, RoundUp(4, c.build);
      && |s| == 3 && s[0].size != 0 && HeapSpec.Malloc(s, 4, c.build) == Result(s, Null)
      && s[2].free && s[2].size > n + c.build.header
  {
    FreeFirst(c, a.chunks);
    RoundsToFour(4, c.build);
    StuckAtFirst(a.chunks[0 := a.chunks[0].(free := true)], 4, c.build);
  }
}
