/**
  The allocator of src/lib/libc/malloc_lite.c: headers in memory, linked by address and changed in
  place. The ghost field `chunks` is the list the links describe; every method is proved to do to it
  what HeapSpec says. `mem` holds a header per address; only those of current chunks matter, so the
  bytes of a payload, stale headers included, may hold anything.
 */
module Heap {
  import opened HeapChunks
  import opened HeapSpec
  import opened HeapSteps
  import opened Sequences

  const NULL: nat := 0

  datatype Header = Header(size: nat, free: bool, next: nat)

  function NextAddr(s: seq<Chunk>, i: nat): nat
    requires i < |s|
  {
    if i + 1 < |s| then s[i + 1].addr else NULL
  }

  /** The header in memory of chunk i agrees with the list. */
  predicate HeaderAt(mem: map<nat, Header>, s: seq<Chunk>, i: nat)
    requires i < |s|
  {
    s[i].addr in mem && mem[s[i].addr] == Header(s[i].size, s[i].free, NextAddr(s, i))
  }

  predicate Linked(mem: map<nat, Header>, s: seq<Chunk>) {
    forall i :: 0 <= i < |s| ==> HeaderAt(mem, s, i)
  }

  function IndexAt(s: seq<Chunk>, addr: nat, from: nat): (k: nat)
    requires from <= |s|
    ensures from <= k <= |s| && (k < |s| ==> s[k].addr == addr)
    ensures k == |s| ==> forall j :: from <= j < |s| ==> s[j].addr != addr
    decreases |s| - from
  {
    if from == |s| || s[from].addr == addr then from else IndexAt(s, addr, from + 1)
  }

  /** (chunk_t *)p - 1 on addresses of the machine's width. */
  function HeaderOf(ptr: nat, b: Build): nat
    requires b.header <= b.modulus && b.modulus > 0
  {
    (ptr + b.modulus - b.header) % b.modulus
  }

  /** Reduction to the width of size_t. */
  function Wrap(x: nat, modulus: nat): (r: nat)
    requires modulus > 0
    ensures x < modulus ==> r == x
  {
    x % modulus
  }

  lemma Distinct(s: seq<Chunk>, start: nat, total: nat, header: nat)
    requires Tiles(s, start, total, header) && header > 0
    ensures forall i, j :: 0 <= i < |s| && 0 <= j < |s| && i != j ==> s[i].addr != s[j].addr
    ensures forall i :: 0 <= i < |s| ==> start <= s[i].addr && s[i].addr + header + s[i].size <= start + total
  {
    forall i, j | 0 <= i < j < |s|
      ensures s[i].addr != s[j].addr
    {
      Ordered(s, start, total, header, i, j);
    }
    forall i | 0 <= i < |s|
      ensures start <= s[i].addr && s[i].addr + header + s[i].size <= start + total
    {
      Within(s, start, total, header, i);
    }
  }

  /** Rewriting the header of chunk i in place, with the same successor. */
  lemma LinkedUpdate(mem: map<nat, Header>, s: seq<Chunk>, i: nat, c: Chunk, start: nat, total: nat, header: nat)
    requires Linked(mem, s) && Tiles(s, start, total, header) && header > 0 && i < |s| && c.addr == s[i].addr
    ensures Linked(mem[c.addr := Header(c.size, c.free, NextAddr(s, i))], s[i := c])
  {
    Distinct(s, start, total, header);
    var t, m := s[i := c], mem[c.addr := Header(c.size, c.free, NextAddr(s, i))];
    forall j | 0 <= j < |t|
      ensures HeaderAt(m, t, j)
    {
      assert HeaderAt(mem, s, j);
    }
  }

  lemma LinkedJoin(mem: map<nat, Header>, s: seq<Chunk>, i: nat, start: nat, total: nat, header: nat)
    requires Linked(mem, s) && Tiles(s, start, total, header) && header > 0 && i + 1 < |s|
    requires s[i].free && s[i + 1].free
    ensures var c := Join(s[i], s[i + 1], header); var t := s[..i] + [c] + s[i + 2..];
      && Linked(mem[c.addr := Header(c.size, c.free, NextAddr(s, i + 1))], t)
      && Tiles(t, start, total, header)
  {
    Distinct(s, start, total, header);
    var c := Join(s[i], s[i + 1], header);
    assert Follows(s, i, header);
    TilesReplace(s, i, i + 2, [c], header + c.size, start, total, header);
    var t := s[..i] + [c] + s[i + 2..];
    var m := mem[c.addr := Header(c.size, c.free, NextAddr(s, i + 1))];
    forall j | 0 <= j < |t|
      ensures HeaderAt(m, t, j)
    {
      if j < i {
        assert HeaderAt(mem, s, j) && t[j] == s[j] && NextAddr(t, j) == NextAddr(s, j);
      } else if j > i {
        assert HeaderAt(mem, s, j + 1) && t[j] == s[j + 1] && NextAddr(t, j) == NextAddr(s, j + 1);
      } else {
        assert NextAddr(t, i) == NextAddr(s, i + 1);
      }
    }
  }

  lemma LinkedSplit(mem: map<nat, Header>, s: seq<Chunk>, k: nat, n: nat, start: nat, total: nat, header: nat)
    requires Linked(mem, s) && Tiles(s, start, total, header) && header > 0
    requires k < |s| && s[k].size > n + header
    ensures var t := Split(s, k, n, header);
      Linked(mem[t[k + 1].addr := Header(t[k + 1].size, true, NextAddr(s, k))]
                [t[k].addr := Header(n, false, t[k + 1].addr)], t)
  {
    var t := Split(s, k, n, header);
    TakeKeepsTiles(s, k, n, start, total, header);
    Distinct(t, start, total, header);
    var m := mem[t[k + 1].addr := Header(t[k + 1].size, true, NextAddr(s, k))]
                [t[k].addr := Header(n, false, t[k + 1].addr)];
    forall j | 0 <= j < |t|
      ensures HeaderAt(m, t, j)
    {
      if j < k {
        assert HeaderAt(mem, s, j) && t[j] == s[j] && NextAddr(t, j) == NextAddr(s, j);
      } else if j > k + 1 {
        assert HeaderAt(mem, s, j - 1) && t[j] == s[j - 1] && NextAddr(t, j) == NextAddr(s, j - 1);
      } else if j == k + 1 {
        assert NextAddr(t, j) == NextAddr(s, k);
      }
    }
  }

  class MallocLite {
    const build: Build
    const start: nat  // &_heap_start
    const total: nat  // &_heap_end - &_heap_start
    var mem: map<nat, Header>
    var freeList: nat
    ghost var chunks: seq<Chunk>

    /** The headers are linked and tile the heap. */
    ghost predicate Shaped()
      reads this
    {
      && Sane(build) && 0 < start && start + total < build.modulus
      && freeList == start && Linked(mem, chunks) && Tiles(chunks, start, total, build.header)
    }

    ghost predicate Valid()
      reads this
    {
      Shaped() && Coalesced(chunks)
    }

    /** platform_init_heap */
    constructor (b: Build, start: nat, total: nat)
      requires Sane(b) && 0 < start && start + total < b.modulus && b.header <= total
      ensures Valid() && build == b && this.start == start && this.total == total
      ensures chunks == [Chunk(start, total - b.header, true)]
    {
      build, this.start, this.total := b, start, total;
      mem := map[start := Header(total - b.header, true, NULL)];
      freeList := start;
      chunks := [Chunk(start, total - b.header, true)];
    }

    method Split(cur: nat, n: nat, ghost k: nat)
      requires Shaped() && k < |chunks| && chunks[k].addr == cur && chunks[k].size > n + build.header
      modifies this`mem, this`chunks
      ensures Shaped() && chunks == HeapSpec.Split(old(chunks), k, n, build.header)
    {
      assert HeaderAt(mem, chunks, k);
      LinkedSplit(mem, chunks, k, n, start, total, build.header);
      TakeKeepsTiles(chunks, k, n, start, total, build.header);
      var rest := cur + n + build.header;
      mem := mem[rest := Header(mem[cur].size - n - build.header, true, mem[cur].next)];
      mem := mem[cur := Header(n, false, rest)];
      chunks := HeapSpec.Split(chunks, k, n, build.header);
    }

    /** Lines 71-72: chunk i swallows its successor. */
    method Absorb(cur: nat, ghost i: nat)
      requires Shaped() && i + 1 < |chunks| && chunks[i].addr == cur && chunks[i].free && chunks[i + 1].free
      modifies this`mem, this`chunks
      ensures Shaped()
      ensures var was := old(chunks);
        chunks == was[..i] + [Join(was[i], was[i + 1], build.header)] + was[i + 2..]
    {
      assert HeaderAt(mem, chunks, i) && HeaderAt(mem, chunks, i + 1);
      LinkedJoin(mem, chunks, i, start, total, build.header);
      var next := mem[cur].next;
      mem := mem[cur := Header(mem[cur].size + mem[next].size + build.header, true, mem[next].next)];
      chunks := chunks[..i] + [Join(chunks[i], chunks[i + 1], build.header)] + chunks[i + 2..];
    }

    method Merge()
      requires Shaped()
      modifies this`mem, this`chunks
      ensures Shaped() && chunks == MergePass(old(chunks), build.header)
    {
      var cur := freeList;
      ghost var i := 0;
      assert HeaderAt(mem, chunks, 0);
      assert chunks[..0] + chunks[0..] == chunks && chunks[0..] == chunks;
      while cur != NULL && mem[cur].next != NULL
        invariant Shaped() && i <= |chunks|
        invariant i < |chunks| ==> HeaderAt(mem, chunks, i)
        invariant cur == if i < |chunks| then chunks[i].addr else NULL
        invariant chunks[..i] + MergePass(chunks[i..], build.header) == MergePass(old(chunks), build.header)
        decreases |chunks| - i
      {
        var next := mem[cur].next;
        assert HeaderAt(mem, chunks, i + 1);
        if mem[cur].free && mem[next].free {
          JoinAdvances(chunks, i, build.header);
          Absorb(cur, i);
        } else {
          SkipAdvances(chunks, i, build.header);
        }
        assert HeaderAt(mem, chunks, i);
        if i + 1 < |chunks| {
          assert HeaderAt(mem, chunks, i + 1);
        }
        cur := mem[cur].next;
        i := i + 1;
      }
      LastOnly(chunks, i, cur, mem, start, total, build.header);
    }

    /** Lines 112-114; NULL when the loop runs off the list. */
    method Search(n: nat) returns (cur: nat)
      requires Shaped()
      ensures var k := FirstStop(chunks, n, 0); cur == if k < |chunks| then chunks[k].addr else NULL
    {
      cur := freeList;
      ghost var k := 0;
      assert HeaderAt(mem, chunks, 0);
      while cur != NULL && (mem[cur].size < n || (!mem[cur].free && mem[cur].next != NULL))
        invariant k <= |chunks| && cur == if k < |chunks| then chunks[k].addr else NULL
        invariant k < |chunks| ==> HeaderAt(mem, chunks, k)
        invariant FirstStop(chunks, n, 0) == FirstStop(chunks, n, k)
        decreases |chunks| - k
      {
        if k + 1 < |chunks| {
          assert HeaderAt(mem, chunks, k + 1);
          Within(chunks, start, total, build.header, k + 1);
        }
        cur := mem[cur].next;
        k := k + 1;
      }
      Distinct(chunks, start, total, build.header);
    }

    method SetFree(cur: nat, free: bool, ghost k: nat)
      requires Shaped() && k < |chunks| && chunks[k].addr == cur
      modifies this`mem, this`chunks
      ensures Shaped() && chunks == old(chunks)[k := old(chunks)[k].(free := free)]
    {
      assert HeaderAt(mem, chunks, k);
      LinkedUpdate(mem, chunks, k, chunks[k].(free := free), start, total, build.header);
      FlagKeepsTiles(chunks, k, free, start, total, build.header);
      mem := mem[cur := mem[cur].(free := free)];
      chunks := chunks[k := chunks[k].(free := free)];
    }

    /** Lines 115-120: hand out chunk k for n bytes. */
    method Take(cur: nat, n: nat, ghost k: nat) returns (r: Outcome)
      requires Shaped() && k < |chunks| && chunks[k].addr == cur && chunks[k].size >= n
      modifies this`mem, this`chunks
      ensures Shaped() && Result(chunks, r) == TakeAt(old(chunks), k, n, build.header)
      ensures !r.Block? ==> mem == old(mem)
    {
      assert HeaderAt(mem, chunks, k);
      Within(chunks, start, total, build.header, k);
      if mem[cur].size == n {
        SetFree(cur, false, k);
      } else if mem[cur].size > Wrap(n + build.header, build.modulus) {
        Split(cur, n, k);
      } else {
        return Null;
      }
      r := Block(cur + build.header);
    }

    /**
      First fit: the block is that of the first chunk that is large enough and free, or of the last chunk
      if that is large enough and no free one comes before it.
     */
    method Malloc(request: nat) returns (r: Outcome)
      requires Valid() && request < build.modulus
      modifies this`mem, this`chunks
      ensures Valid()
      ensures Result(chunks, r) == HeapSpec.Malloc(old(chunks), request, build)
      ensures !r.Block? ==> chunks == old(chunks) && mem == old(mem)
      ensures r.Block? ==>
                var s := old(chunks);
                var n := if !build.rounds then request
                         else if request < build.modulus - 4 then request + (4 - request % 4) else 0;
                exists k :: 0 <= k < |s| && r.ptr == s[k].addr + build.header && FirstFitAt(s, k, n)
    {
      FirstFit(chunks, request, build);
      assert HeaderAt(mem, chunks, 0);
      if request == 0 { return Null; }
      var n := RoundUp(request, build);
      if mem[freeList].size == 0 { return Null; }
      var cur := Search(n);
      ghost var k := FirstStop(chunks, n, 0);
      if k < |chunks| { Within(chunks, start, total, build.header, k); }
      if cur == NULL { return Crash; }
      TakeKeepsCoalesced(chunks, k, n, build.header);
      r := Take(cur, n, k);
    }

    /** Null and pointers outside the heap are ignored; the block of a chunk joins the free run around it. */
    method Free(ptr: nat)
      requires Valid() && ptr < build.modulus
      // a pointer into the heap is one that malloc returned
      requires var h := HeaderOf(ptr, build);
        ptr != NULL && start <= h <= start + total ==> exists i :: 0 <= i < |chunks| && chunks[i].addr == h
      modifies this`mem, this`chunks
      ensures Valid()
      ensures chunks == FreeAt(old(chunks), ptr, start, total, build)
      ensures ptr < start + build.header || ptr > start + total + build.header ==>
                chunks == old(chunks) && mem == old(mem)
      ensures forall i :: 0 <= i < |old(chunks)| && ptr == old(chunks)[i].addr + build.header ==>
                chunks == Freed(old(chunks), i, build.header)
    {
      HeaderIs(ptr, build);
      Distinct(chunks, start, total, build.header);
      if ptr == NULL { return; }
      var cur := HeaderOf(ptr, build);
      if start <= cur <= start + total {
        ghost var i := IndexAt(chunks, cur, 0);
        SetFree(cur, true, i);
        Merge();
        Merge();
        TwoPassesSuffice(old(chunks), i, build.header);
      }
    }

    /** heap_usage: walks the list from the start of the heap and leaves out the last chunk. */
    method HeapUsage() returns (usage: nat)
      requires Valid()
      ensures usage == LiveBytes(chunks[..|chunks| - 1], build.header)
    {
      Distinct(chunks, start, total, build.header);
      assert HeaderAt(mem, chunks, 0);
      usage := 0;
      var head := start;
      ghost var i := 0;
      while mem[head].next != NULL
        invariant i < |chunks| && head == chunks[i].addr && HeaderAt(mem, chunks, i)
        invariant usage == LiveBytes(chunks[..i], build.header)
        decreases |chunks| - i
      {
        assert HeaderAt(mem, chunks, i + 1);
        assert chunks[..i + 1] == chunks[..i] + [chunks[i]];
        BytesAppend(chunks[..i], [chunks[i]], build.header);
        if !mem[head].free {
          usage := usage + (mem[head].size + build.header);
        }
        head := mem[head].next;
        i := i + 1;
      }
    }
  }

  /** At the end of a pass nothing is left to merge. */
  lemma LastOnly(s: seq<Chunk>, i: nat, cur: nat, mem: map<nat, Header>, start: nat, total: nat, header: nat)
    requires Tiles(s, start, total, header) && header > 0 && start > NULL && Linked(mem, s) && i <= |s|
    requires cur == if i < |s| then s[i].addr else NULL
    requires cur != NULL && cur in mem ==> mem[cur].next == NULL
    ensures s[..i] + MergePass(s[i..], header) == s
  {
    if i < |s| {
      Distinct(s, start, total, header);
      assert HeaderAt(mem, s, i);
    }
    assert s[..i] + s[i..] == s;
  }

  /** The header address is ptr - header, or at the top of the address space for pointers below the header's size. */
  lemma HeaderIs(ptr: nat, b: Build)
    requires ptr < b.modulus && b.header <= b.modulus && b.modulus > 0
    ensures HeaderOf(ptr, b) == if ptr < b.header then b.modulus - (b.header - ptr) else ptr - b.header
  {
    WrapOver(ptr + b.modulus - b.header, b.modulus);
  }

  lemma WrapOver(x: nat, m: nat)
    requires x < 2 * m
    ensures x % m == if x < m then x else x - m
  {
  }

  /** The whole effect of `free(ptr)`. */
  function FreeAt(s: seq<Chunk>, ptr: nat, start: nat, total: nat, b: Build): seq<Chunk>
    requires b.header <= b.modulus && b.modulus > 0
  {
    var h := HeaderOf(ptr, b);
    var i := IndexAt(s, h, 0);
    if ptr == NULL || !(start <= h <= start + total) || i == |s| then s else Freed(s, i, b.header)
  }

  lemma FlagKeepsTiles(s: seq<Chunk>, i: nat, free: bool, start: nat, total: nat, header: nat)
    requires Tiles(s, start, total, header) && i < |s|
    ensures Tiles(s[i := s[i].(free := free)], start, total, header)
  {
    var t := s[i := s[i].(free := free)];
    forall k | 0 <= k < |t| - 1
      ensures Follows(t, k, header)
    {
      assert Follows(s, k, header);
    }
  }

  lemma JoinAdvances(s: seq<Chunk>, i: nat, header: nat)
    requires i + 1 < |s| && s[i].free && s[i + 1].free
    ensures var t := s[..i] + [Join(s[i], s[i + 1], header)] + s[i + 2..];
      t[..i + 1] + MergePass(t[i + 1..], header) == s[..i] + MergePass(s[i..], header)
  {
    var c := Join(s[i], s[i + 1], header);
    var t := s[..i] + [c] + s[i + 2..];
    var rest := s[i + 2..];
    assert t[i + 1..] == rest && t[..i + 1] == s[..i] + [c];
    assert s[i..][2..] == rest && s[i..][0] == s[i] && s[i..][1] == s[i + 1];
    Assoc(s[..i], [c], MergePass(rest, header));
  }

  lemma SkipAdvances(s: seq<Chunk>, i: nat, header: nat)
    requires i + 1 < |s| && !BothFree(s, i)
    ensures s[..i + 1] + MergePass(s[i + 1..], header) == s[..i] + MergePass(s[i..], header)
  {
    assert s[i..][1..] == s[i + 1..];
    assert s[..i + 1] == s[..i] + [s[i]];
  }
}
