/** One call of `malloc` or `free`: tiling, coalescing, the free tail and the account of live blocks. */
module HeapSteps {
  import opened HeapChunks
  import opened HeapSpec

  /** Neighbours of a list put together from two tiled parts. */
  lemma TilesReplace(s: seq<Chunk>, i: nat, j: nat, m: seq<Chunk>, len: nat, start: nat, total: nat, header: nat)
    requires Tiles(s, start, total, header) && i < j <= |s|
    requires Tiles(m, s[i].addr, len, header) && s[i].addr + len == s[j - 1].addr + header + s[j - 1].size
    ensures Tiles(s[..i] + m + s[j..], start, total, header)
  {
    var t := s[..i] + m + s[j..];
    forall k | 0 <= k < |t| - 1
      ensures Follows(t, k, header)
    {
      if k + 1 < i {
        assert Follows(s, k, header);
      } else if k + 1 == i {
        assert Follows(s, k, header);
      } else if k - i + 1 < |m| {
        assert Follows(m, k - i, header);
      } else if k - i + 1 == |m| {
        assert Follows(s, j - 1, header);
      } else {
        var d := k - i - |m| + j;
        assert t[k] == s[d] && t[k + 1] == s[d + 1];
        assert Follows(s, d, header);
      }
    }
    if j < |s| {
      assert t[|t| - 1] == s[|s| - 1];
    }
  }

  // ----- malloc -----

  lemma TakeKeepsTiles(s: seq<Chunk>, k: nat, n: nat, start: nat, total: nat, header: nat)
    requires Tiles(s, start, total, header) && k < |s| && s[k].size >= n
    ensures Tiles(TakeAt(s, k, n, header).chunks, start, total, header)
  {
    var t := TakeAt(s, k, n, header).chunks;
    if s[k].size == n {
      var m := [s[k].(free := false)];
      TilesReplace(s, k, k + 1, m, header + s[k].size, start, total, header);
      assert t == s[..k] + m + s[k + 1..];
    } else if s[k].size > n + header {
      var m := [Chunk(s[k].addr, n, false), Chunk(s[k].addr + n + header, s[k].size - n - header, true)];
      assert m[0].addr == s[k].addr && m[1].addr == m[0].addr + header + m[0].size;
      TilesReplace(s, k, k + 1, m, header + s[k].size, start, total, header);
    }
  }

  lemma TakeKeepsCoalesced(s: seq<Chunk>, k: nat, n: nat, header: nat)
    requires Coalesced(s) && k < |s| && Stops(s, k, n)
    ensures Coalesced(TakeAt(s, k, n, header).chunks)
  {
    var t := TakeAt(s, k, n, header).chunks;
    forall j | 0 <= j < |t| - 1
      ensures !BothFree(t, j)
    {
      if |t| == |s| || j < k {
        assert j < |s| - 1;
        assert !BothFree(s, j);
      } else if j > k {
        assert t[j + 1] == s[j];
        assert !BothFree(s, j - 1);
      }
    }
  }

  lemma TakeKeepsTail(s: seq<Chunk>, k: nat, n: nat, header: nat)
    requires TailFree(s) && k < |s| && s[k].size >= n && n % 4 == 0 && header % 4 == 0
    ensures TailFree(TakeAt(s, k, n, header).chunks)
  {
    var t := TakeAt(s, k, n, header).chunks;
    if s[k].size > n + header && s[k].size != n {
      assert forall j :: k + 2 <= j < |t| ==> t[j] == s[j - 1];
      assert k < |s| - 1 ==> t[|t| - 1] == s[|s| - 1];
    }
  }

  lemma TakeShape(s: seq<Chunk>, k: nat, n: nat, header: nat, rest: seq<Chunk>)
    requires k < |s| && s[k].size >= n && TakeAt(s, k, n, header).outcome.Block?
    requires rest == if s[k].size == n then [] else [Chunk(s[k].addr + n + header, s[k].size - n - header, true)]
    ensures s == s[..k] + [s[k]] + s[k + 1..]
    ensures TakeAt(s, k, n, header).chunks == s[..k] + ([Chunk(s[k].addr, n, false)] + rest) + s[k + 1..]
  {
  }

  /** A free chunk replaced by a live one and possibly a free rest. */
  lemma SwapLive(p: seq<Chunk>, f: Chunk, c: Chunk, rest: seq<Chunk>, q: seq<Chunk>, header: nat)
    requires f.free && !c.free && forall i :: 0 <= i < |rest| ==> rest[i].free
    ensures Live(p + ([c] + rest) + q, header) == Live(p + [f] + q, header) + {(c.addr + header, c.size)}
    ensures LiveBytes(p + ([c] + rest) + q, header) == LiveBytes(p + [f] + q, header) + c.size + header
  {
    CutInThree(p, [f], q, header);
    CutInThree(p, [c] + rest, q, header);
    NoneLive([f], header);
    OneLive(c, rest, header);
  }

  /** Taking a free chunk adds exactly one block of n bytes to the live ones. */
  lemma TakeLive(s: seq<Chunk>, k: nat, n: nat, header: nat)
    requires k < |s| && s[k].free && s[k].size >= n && TakeAt(s, k, n, header).outcome.Block?
    ensures var t := TakeAt(s, k, n, header).chunks;
      && Live(t, header) == Live(s, header) + {(s[k].addr + header, n)}
      && LiveBytes(t, header) == LiveBytes(s, header) + n + header
  {
    var rest := if s[k].size == n then [] else [Chunk(s[k].addr + n + header, s[k].size - n - header, true)];
    TakeShape(s, k, n, header, rest);
    SwapLive(s[..k], s[k], Chunk(s[k].addr, n, false), rest, s[k + 1..], header);
  }

  // ----- free -----

  /** The part of the list that `Freed` replaces: chunk i and its free neighbours. */
  function RunStart(s: seq<Chunk>, i: nat): (k: nat)
    requires i < |s|
    ensures k <= i
  {
    if i > 0 && s[i - 1].free then i - 1 else i
  }

  function RunEnd(s: seq<Chunk>, i: nat): (k: nat)
    requires i < |s|
    ensures i < k <= |s|
  {
    if i + 1 < |s| && s[i + 1].free then i + 2 else i + 1
  }

  lemma FreedShape(s: seq<Chunk>, i: nat, start: nat, total: nat, header: nat) returns (c: Chunk)
    requires Tiles(s, start, total, header) && i < |s|
    ensures var lo, hi := RunStart(s, i), RunEnd(s, i);
      && Freed(s, i, header) == s[..lo] + [c] + s[hi..]
      && c.free && c.addr == s[lo].addr
      && c.addr + header + c.size == s[hi - 1].addr + header + s[hi - 1].size
  {
    var lo, hi := RunStart(s, i), RunEnd(s, i);
    c := Freed(s, i, header)[lo];
    if lo < i { assert Follows(s, lo, header); }
    if i + 1 < hi { assert Follows(s, i, header); }
  }

  lemma FreedKeepsTiles(s: seq<Chunk>, i: nat, start: nat, total: nat, header: nat)
    requires Tiles(s, start, total, header) && i < |s|
    ensures Tiles(Freed(s, i, header), start, total, header)
  {
    var c := FreedShape(s, i, start, total, header);
    TilesReplace(s, RunStart(s, i), RunEnd(s, i), [c], header + c.size, start, total, header);
  }

  lemma JoinSize(a: Chunk, b: Chunk, header: nat)
    requires a.size % 4 == 0 && header % 4 == 0
    ensures Join(a, b, header).size % 4 == b.size % 4
  {
  }

  lemma FreedSize(s: seq<Chunk>, i: nat, header: nat)
    requires TailFree(s) && i < |s| && header % 4 == 0
    ensures Freed(s, i, header)[RunStart(s, i)].size % 4 == (if RunEnd(s, i) == |s| then 3 else 0)
  {
    var mid := s[i].(free := true);
    if RunStart(s, i) < i {
      JoinSize(s[i - 1], mid, header);
      mid := Join(s[i - 1], mid, header);
    }
    if i + 1 < RunEnd(s, i) {
      JoinSize(mid, s[i + 1], header);
    }
  }

  lemma FreedKeepsTail(s: seq<Chunk>, i: nat, header: nat)
    requires TailFree(s) && i < |s| && header % 4 == 0
    ensures TailFree(Freed(s, i, header))
  {
    var t := Freed(s, i, header);
    var lo, hi := RunStart(s, i), RunEnd(s, i);
    FreedSize(s, i, header);
    var c := t[lo];
    assert t == s[..lo] + [c] + s[hi..];
    forall j | 0 <= j < |t| - 1
      ensures t[j].size % 4 == 0
    {
      if lo < j { assert t[j] == s[j - lo - 1 + hi]; }
    }
    if hi < |s| { assert t[|t| - 1] == s[|s| - 1]; }
  }

  lemma RunLive(s: seq<Chunk>, i: nat, header: nat)
    requires i < |s| && !s[i].free
    ensures var m := s[RunStart(s, i)..RunEnd(s, i)];
      && Live(m, header) == {(s[i].addr + header, s[i].size)}
      && LiveBytes(m, header) == s[i].size + header
  {
    var lo, hi := RunStart(s, i), RunEnd(s, i);
    CutInThree(s[lo..i], [s[i]] + [], s[i + 1..hi], header);
    assert s[lo..hi] == s[lo..i] + ([s[i]] + []) + s[i + 1..hi];
    NoneLive(s[lo..i], header);
    NoneLive(s[i + 1..hi], header);
    OneLive(s[i], [], header);
  }

  lemma OnlyLiveOnce(s: seq<Chunk>, i: nat, start: nat, total: nat, header: nat)
    requires Tiles(s, start, total, header) && header > 0 && i < |s|
    ensures (s[i].addr + header, s[i].size) !in Live(s[..RunStart(s, i)], header)
    ensures (s[i].addr + header, s[i].size) !in Live(s[RunEnd(s, i)..], header)
  {
    forall j | 0 <= j < |s| && j != i
      ensures s[j].addr != s[i].addr
    {
      if j < i { Ordered(s, start, total, header, j, i); } else { Ordered(s, start, total, header, i, j); }
    }
    NotLiveElsewhere(s[..RunStart(s, i)], s, 0, s[i], header);
    NotLiveElsewhere(s[RunEnd(s, i)..], s, RunEnd(s, i), s[i], header);
  }

  lemma LiveWithoutRun(s: seq<Chunk>, i: nat, header: nat)
    requires i < |s| && !s[i].free
    ensures var lo, hi := RunStart(s, i), RunEnd(s, i); var x := (s[i].addr + header, s[i].size);
      && Live(s, header) == Live(s[..lo], header) + {x} + Live(s[hi..], header)
      && LiveBytes(s, header) == LiveBytes(s[..lo], header) + LiveBytes(s[hi..], header) + s[i].size + header
  {
    var lo, hi := RunStart(s, i), RunEnd(s, i);
    assert s == s[..lo] + s[lo..hi] + s[hi..];
    CutInThree(s[..lo], s[lo..hi], s[hi..], header);
    RunLive(s, i, header);
  }

  /** Freeing a live chunk removes exactly its block from the live ones. */
  lemma FreedLive(s: seq<Chunk>, i: nat, start: nat, total: nat, header: nat)
    requires Tiles(s, start, total, header) && header > 0 && i < |s| && !s[i].free
    ensures var t := Freed(s, i, header);
      && Live(t, header) == Live(s, header) - {(s[i].addr + header, s[i].size)}
      && LiveBytes(t, header) + s[i].size + header == LiveBytes(s, header)
  {
    var c := FreedShape(s, i, start, total, header);
    var lo, hi := RunStart(s, i), RunEnd(s, i);
    CutInThree(s[..lo], [c], s[hi..], header);
    NoneLive([c], header);
    LiveWithoutRun(s, i, header);
    OnlyLiveOnce(s, i, start, total, header);
  }

  lemma NotLiveElsewhere(p: seq<Chunk>, s: seq<Chunk>, at: nat, c: Chunk, header: nat)
    requires at + |p| <= |s| && p == s[at..at + |p|]
    requires forall j :: at <= j < at + |p| ==> s[j].addr != c.addr
    ensures (c.addr + header, c.size) !in Live(p, header)
  {
  }
}
