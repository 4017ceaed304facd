/**
  The chunk list of src/lib/libc/malloc_lite.c as a sequence, and what its operations do to it:
  first-fit search, split, one merge pass, and the two-pass coalescing of `free`.
 */
module HeapChunks {
  import opened Sequences

  /** `free` is the chunk's flag; the payload starts `header` bytes after `addr`. */
  datatype Chunk = Chunk(addr: nat, size: nat, free: bool)

  /** The build settings the allocator depends on: sizeof(chunk_t), HEAP_ALIGN > 1, and 2^(bits of size_t). */
  datatype Build = Build(header: nat, rounds: bool, modulus: nat)

  /** sifive, ibex and rp2040 builds: three 32-bit words, requests rounded with ALIGN_BOUND 4. */
  const ALIGNED_BUILD := Build(12, true, 0x1_0000_0000)
  /** AVR builds: HEAP_ALIGN is 1, the flag is one byte, pointers and size_t are two bytes. */
  const AVR_BUILD := Build(5, false, 0x1_0000)

  predicate Sane(b: Build) {
    b.header > 0 && (b.rounds ==> b.header % 4 == 0 && b.modulus % 4 == 0 && b.modulus > 4)
  }

  // ----- shape -----

  /** The header of chunk i + 1 directly follows the payload of chunk i. */
  predicate Follows(s: seq<Chunk>, i: nat, header: nat)
    requires i + 1 < |s|
  {
    s[i + 1].addr == s[i].addr + header + s[i].size
  }

  predicate BothFree(s: seq<Chunk>, i: nat)
    requires i + 1 < |s|
  {
    s[i].free && s[i + 1].free
  }

  /** The chunks cover [start, start + total) exactly: each header directly follows the previous payload. */
  predicate Tiles(s: seq<Chunk>, start: nat, total: nat, header: nat) {
    && |s| > 0 && s[0].addr == start
    && (forall i :: 0 <= i < |s| - 1 ==> Follows(s, i, header))
    && s[|s| - 1].addr + header + s[|s| - 1].size == start + total
  }

  /** No two adjacent chunks are both free. */
  predicate Coalesced(s: seq<Chunk>) {
    forall i :: 0 <= i < |s| - 1 ==> !BothFree(s, i)
  }

  /** Payloads before the last chunk are multiples of 4, the last one is 3 more than a multiple, and it is free. */
  predicate TailFree(s: seq<Chunk>) {
    && |s| > 0 && s[|s| - 1].free && s[|s| - 1].size % 4 == 3
    && forall i :: 0 <= i < |s| - 1 ==> s[i].size % 4 == 0
  }

  lemma {:induction false} Ordered(s: seq<Chunk>, start: nat, total: nat, header: nat, i: nat, j: nat)
    requires Tiles(s, start, total, header) && i < j < |s|
    ensures s[i].addr + header + s[i].size <= s[j].addr
  {
    if i + 1 < j {
      Ordered(s, start, total, header, i, j - 1);
      assert Follows(s, j - 1, header);
    } else {
      assert Follows(s, i, header);
    }
  }

  lemma {:induction false} Within(s: seq<Chunk>, start: nat, total: nat, header: nat, i: nat)
    requires Tiles(s, start, total, header) && i < |s|
    ensures start <= s[i].addr && s[i].addr + header + s[i].size <= start + total
  {
    if 0 < i { Ordered(s, start, total, header, 0, i); }
    if i < |s| - 1 { Ordered(s, start, total, header, i, |s| - 1); }
  }

  // ----- merge and free -----

  function Join(a: Chunk, b: Chunk, header: nat): Chunk {
    Chunk(a.addr, a.size + b.size + header, a.free)
  }

  /** One pass of `merge`: after joining two chunks it moves on without testing the result again. */
  function MergePass(s: seq<Chunk>, header: nat): seq<Chunk> {
    if |s| < 2 then s
    else if s[0].free && s[1].free then [Join(s[0], s[1], header)] + MergePass(s[2..], header)
    else [s[0]] + MergePass(s[1..], header)
  }

  function MarkFree(s: seq<Chunk>, i: nat): seq<Chunk>
    requires i < |s|
  {
    s[i := s[i].(free := true)]
  }

  /** What freeing chunk i means: the maximal run of free chunks around it becomes one free chunk. */
  function Freed(s: seq<Chunk>, i: nat, header: nat): seq<Chunk>
    requires i < |s|
  {
    var left := i > 0 && s[i - 1].free;
    var right := i + 1 < |s| && s[i + 1].free;
    var mid := s[i].(free := true);
    var mid := if left then Join(s[i - 1], mid, header) else mid;
    var mid := if right then Join(mid, s[i + 1], header) else mid;
    s[..if left then i - 1 else i] + [mid] + s[if right then i + 2 else i + 1..]
  }

  lemma {:induction false} MergeIdentity(s: seq<Chunk>, header: nat)
    requires Coalesced(s)
    ensures MergePass(s, header) == s
  {
    if |s| >= 2 {
      assert !BothFree(s, 0);
      CoalescedFrom(s, 1);
      MergeIdentity(s[1..], header);
    }
  }

  /** p is coalesced and stays so with c behind it. */
  predicate Apart(p: seq<Chunk>, c: Chunk) {
    Coalesced(p) && (p != [] ==> !(p[|p| - 1].free && c.free))
  }

  /** A pass leaves a coalesced prefix alone when no join crosses into the rest. */
  lemma {:induction false} MergePrefix(p: seq<Chunk>, rest: seq<Chunk>, header: nat)
    requires rest != [] && Apart(p, rest[0])
    ensures MergePass(p + rest, header) == p + MergePass(rest, header)
  {
    var s := p + rest;
    if p == [] {
      assert s == rest;
    } else {
      assert s[0] == p[0] && s[1] == (if |p| > 1 then p[1] else rest[0]);
      assert |p| > 1 ==> !BothFree(p, 0);
      assert s[1..] == p[1..] + rest;
      CoalescedFrom(p, 1);
      MergePrefix(p[1..], rest, header);
      Assoc([p[0]], p[1..], MergePass(rest, header));
      assert [p[0]] + p[1..] == p;
    }
  }

  lemma MergeHead(a: Chunk, b: Chunk, rest: seq<Chunk>, header: nat)
    requires a.free && b.free && Coalesced(rest)
    ensures MergePass([a, b] + rest, header) == [Join(a, b, header)] + rest
  {
    assert ([a, b] + rest)[2..] == rest;
    MergeIdentity(rest, header);
  }

  /** A pass over a coalesced prefix followed by two free chunks joins exactly these two. */
  lemma MergePair(p: seq<Chunk>, a: Chunk, b: Chunk, rest: seq<Chunk>, header: nat)
    requires a.free && b.free && Apart(p, a) && Coalesced(rest)
    ensures MergePass(p + [a, b] + rest, header) == p + [Join(a, b, header)] + rest
  {
    var tail := [a, b] + rest;
    MergeHead(a, b, rest, header);
    MergePrefix(p, tail, header);
    Assoc(p, [a, b], rest);
    Assoc(p, [Join(a, b, header)], rest);
  }

  lemma CoalescedFrom(s: seq<Chunk>, i: nat)
    requires Coalesced(s) && i <= |s|
    ensures Coalesced(s[i..])
  {
    forall k | 0 <= k < |s| - i - 1
      ensures !BothFree(s[i..], k)
    {
      assert !BothFree(s, i + k);
    }
  }

  lemma CoalescedUpTo(s: seq<Chunk>, j: nat)
    requires Coalesced(s) && j <= |s|
    ensures Coalesced(s[..j])
  {
    forall k | 0 <= k < j - 1
      ensures !BothFree(s[..j], k)
    {
      assert !BothFree(s, k);
    }
  }

  /** A chunk between two coalesced lists that it does not extend. */
  lemma CoalescedAround(p: seq<Chunk>, c: Chunk, rest: seq<Chunk>)
    requires Apart(p, c) && Coalesced(rest) && (rest != [] ==> !(c.free && rest[0].free))
    ensures Coalesced(p + [c] + rest)
  {
    var s := p + [c] + rest;
    forall k | 0 <= k < |s| - 1
      ensures !BothFree(s, k)
    {
      if k < |p| - 1 {
        assert !BothFree(p, k);
      } else if k > |p| {
        assert !BothFree(rest, k - |p| - 1);
      }
    }
  }

  lemma MergeAfterLeft(s: seq<Chunk>, i: nat, header: nat)
    requires Coalesced(s) && 0 < i < |s| && s[i - 1].free
    ensures MergePass(MergePass(MarkFree(s, i), header), header) == Freed(s, i, header)
    ensures Coalesced(Freed(s, i, header))
  {
    var x := s[i].(free := true);
    var p, rest := s[..i - 1], s[i + 1..];
    CoalescedUpTo(s, i - 1);
    CoalescedFrom(s, i + 1);
    assert i >= 2 ==> !BothFree(s, i - 2);
    assert rest != [] ==> !BothFree(s, i - 1);
    assert MarkFree(s, i) == p + [s[i - 1], x] + rest;
    MergePair(p, s[i - 1], x, rest, header);
    var y := Join(s[i - 1], x, header);
    if rest != [] && rest[0].free {
      assert p + [y] + rest == p + [y, s[i + 1]] + s[i + 2..];
      CoalescedFrom(s, i + 2);
      MergePair(p, y, s[i + 1], s[i + 2..], header);
      assert i + 2 < |s| ==> !BothFree(s, i + 1);
      CoalescedAround(p, Join(y, s[i + 1], header), s[i + 2..]);
    } else {
      CoalescedAround(p, y, rest);
      MergeIdentity(p + [y] + rest, header);
    }
  }

  lemma MergeNoLeft(s: seq<Chunk>, i: nat, header: nat)
    requires Coalesced(s) && i < |s| && (i > 0 ==> !s[i - 1].free)
    ensures MergePass(MergePass(MarkFree(s, i), header), header) == Freed(s, i, header)
    ensures Coalesced(Freed(s, i, header))
  {
    var x := s[i].(free := true);
    var p, rest := s[..i], s[i + 1..];
    CoalescedUpTo(s, i);
    CoalescedFrom(s, i + 1);
    if rest != [] && rest[0].free {
      assert MarkFree(s, i) == p + [x, s[i + 1]] + s[i + 2..];
      CoalescedFrom(s, i + 2);
      MergePair(p, x, s[i + 1], s[i + 2..], header);
      assert i + 2 < |s| ==> !BothFree(s, i + 1);
      CoalescedAround(p, Join(x, s[i + 1], header), s[i + 2..]);
      MergeIdentity(Freed(s, i, header), header);
    } else {
      assert MarkFree(s, i) == p + [x] + rest;
      CoalescedAround(p, x, rest);
      MergeIdentity(p + [x] + rest, header);
    }
  }

  /** The two passes in `free` compute `Freed`: one free creates a run of at most three. */
  lemma TwoPassesSuffice(s: seq<Chunk>, i: nat, header: nat)
    requires Coalesced(s) && i < |s|
    ensures MergePass(MergePass(MarkFree(s, i), header), header) == Freed(s, i, header)
    ensures Coalesced(Freed(s, i, header))
  {
    if i > 0 && s[i - 1].free {
      MergeAfterLeft(s, i, header);
    } else {
      MergeNoLeft(s, i, header);
    }
  }

  /** One pass is not enough: of three free chunks in a row it leaves two. */
  lemma OnePassLeavesTwo(a: Chunk, b: Chunk, c: Chunk, header: nat)
    requires a.free && b.free && c.free
    ensures MergePass([a, b, c], header) == [Join(a, b, header), c]
    ensures !Coalesced(MergePass([a, b, c], header))
  {
    assert [a, b, c][2..] == [c];
    assert BothFree([Join(a, b, header), c], 0);
  }
}
