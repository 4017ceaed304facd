/** What `malloc` and `free` do to the chunk list, and the facts each of them keeps. */
module HeapSpec {
  import opened HeapChunks

  /** The result of `malloc`; `Crash` is the search following the null link at the end of the list. */
  datatype Outcome = Null | Block(ptr: nat) | Crash

  datatype Result = Result(chunks: seq<Chunk>, outcome: Outcome)

  /** ROUNDUP_ALIGN on size_t: adds 4 even to a multiple of 4, and wraps. */
  function RoundUp(request: nat, b: Build): nat
    requires Sane(b)
  {
    if b.rounds then (request + (4 - request % 4)) % b.modulus else request
  }

  /** The search loop stops at chunk k (negation of the condition on line 113). */
  predicate Stops(s: seq<Chunk>, k: nat, n: nat)
    requires k < |s|
  {
    s[k].size >= n && (s[k].free || k == |s| - 1)
  }

  function FirstStop(s: seq<Chunk>, n: nat, from: nat): (k: nat)
    requires from <= |s|
    ensures from <= k <= |s| && (k < |s| ==> Stops(s, k, n))
    ensures forall j :: from <= j < k ==> !Stops(s, j, n)
    decreases |s| - from
  {
    if from == |s| || Stops(s, from, n) then from else FirstStop(s, n, from + 1)
  }

  function Split(s: seq<Chunk>, k: nat, n: nat, header: nat): seq<Chunk>
    requires k < |s| && n + header <= s[k].size
  {
    s[..k] + [Chunk(s[k].addr, n, false), Chunk(s[k].addr + n + header, s[k].size - n - header, true)] + s[k + 1..]
  }

  /** Hand out chunk k for n bytes: exact fit, split, or give up when the rest could not hold a header. */
  function TakeAt(s: seq<Chunk>, k: nat, n: nat, header: nat): Result
    requires k < |s| && s[k].size >= n
  {
    if s[k].size == n then Result(s[k := s[k].(free := false)], Block(s[k].addr + header))
    else if s[k].size > n + header then Result(Split(s, k, n, header), Block(s[k].addr + header))
    else Result(s, Null)
  }

  function Malloc(s: seq<Chunk>, request: nat, b: Build): Result
    requires |s| > 0 && Sane(b)
  {
    var n := RoundUp(request, b);
    if request == 0 || s[0].size == 0 then Result(s, Null)
    else
      var k := FirstStop(s, n, 0);
      if k == |s| then Result(s, Crash) else TakeAt(s, k, n, b.header)
  }

  /** The rounded request, without the wrap written as a remainder. */
  lemma RoundUpIs(request: nat, b: Build)
    requires Sane(b) && request < b.modulus
    ensures RoundUp(request, b) == if !b.rounds then request
                                   else if request < b.modulus - 4 then request + (4 - request % 4) else 0
  {
    if b.rounds {
      var up := request + (4 - request % 4);
      assert up % 4 == 0 && (request < b.modulus - 4 ==> up < b.modulus) && up <= b.modulus;
      WrapOnce(up, b.modulus);
    }
  }

  lemma WrapOnce(x: nat, m: nat)
    requires x <= m && m > 0
    ensures x % m == if x < m then x else 0
  {
  }

  /** Chunk k is large enough and free or last, and no chunk before it is free and large enough. */
  predicate FirstFitAt(s: seq<Chunk>, k: nat, n: nat)
    requires k < |s|
  {
    && s[k].size >= n && (s[k].free || k == |s| - 1)
    && forall j :: 0 <= j < k ==> !s[j].free || s[j].size < n
  }

  /**
    First fit: a block comes from a chunk that is large enough and free or last, no earlier chunk is free
    and large enough, and any other outcome leaves the list alone.
   */
  lemma FirstFit(s: seq<Chunk>, request: nat, b: Build)
    requires |s| > 0 && Sane(b) && request < b.modulus
    ensures var r := Malloc(s, request, b);
      var n := if !b.rounds then request
               else if request < b.modulus - 4 then request + (4 - request % 4) else 0;
      && (!r.outcome.Block? ==> r.chunks == s)
      && (r.outcome.Block? ==>
            exists k :: 0 <= k < |s| && r.outcome.ptr == s[k].addr + b.header && FirstFitAt(s, k, n))
  {
    RoundUpIs(request, b);
    var n := RoundUp(request, b);
    var k := FirstStop(s, n, 0);
    forall j | 0 <= j < k
      ensures !s[j].free || s[j].size < n
    {
      assert !Stops(s, j, n);
    }
    assert k < |s| ==> FirstFitAt(s, k, n);
  }

  // ----- the blocks in use -----

  /** Payload address and size of every chunk that is handed out. */
  ghost function Live(s: seq<Chunk>, header: nat): set<(nat, nat)> {
    set i | 0 <= i < |s| && !s[i].free :: (s[i].addr + header, s[i].size)
  }

  /** Bytes of the handed-out chunks, headers included. */
  function LiveBytes(s: seq<Chunk>, header: nat): nat {
    if s == [] then 0 else (if s[0].free then 0 else s[0].size + header) + LiveBytes(s[1..], header)
  }

  function AllBytes(s: seq<Chunk>, header: nat): nat {
    if s == [] then 0 else s[0].size + header + AllBytes(s[1..], header)
  }

  lemma LiveAppend(a: seq<Chunk>, b: seq<Chunk>, header: nat)
    ensures Live(a + b, header) == Live(a, header) + Live(b, header)
  {
    var s := a + b;
    forall x | x in Live(b, header)
      ensures x in Live(s, header)
    {
      var i :| 0 <= i < |b| && !b[i].free && x == (b[i].addr + header, b[i].size);
      assert s[|a| + i] == b[i];
    }
    forall x | x in Live(a, header)
      ensures x in Live(s, header)
    {
      var i :| 0 <= i < |a| && !a[i].free && x == (a[i].addr + header, a[i].size);
      assert s[i] == a[i];
    }
  }

  lemma {:induction false} BytesAppend(a: seq<Chunk>, b: seq<Chunk>, header: nat)
    ensures LiveBytes(a + b, header) == LiveBytes(a, header) + LiveBytes(b, header)
    ensures AllBytes(a + b, header) == AllBytes(a, header) + AllBytes(b, header)
  {
    if a == [] {
      assert a + b == b;
    } else {
      assert (a + b)[1..] == a[1..] + b;
      BytesAppend(a[1..], b, header);
    }
  }

  /** Both accounts of a list cut in three. */
  lemma CutInThree(p: seq<Chunk>, m: seq<Chunk>, q: seq<Chunk>, header: nat)
    ensures Live(p + m + q, header) == Live(p, header) + Live(m, header) + Live(q, header)
    ensures LiveBytes(p + m + q, header) == LiveBytes(p, header) + LiveBytes(m, header) + LiveBytes(q, header)
  {
    LiveAppend(p, m, header);
    LiveAppend(p + m, q, header);
    BytesAppend(p, m, header);
    BytesAppend(p + m, q, header);
  }

  lemma NoneLive(m: seq<Chunk>, header: nat)
    requires forall i :: 0 <= i < |m| ==> m[i].free
    ensures Live(m, header) == {} && LiveBytes(m, header) == 0
  {
  }

  lemma OneLive(c: Chunk, m: seq<Chunk>, header: nat)
    requires !c.free && forall i :: 0 <= i < |m| ==> m[i].free
    ensures Live([c] + m, header) == {(c.addr + header, c.size)}
    ensures LiveBytes([c] + m, header) == c.size + header
  {
    LiveAppend([c], m, header);
    BytesAppend([c], m, header);
    NoneLive(m, header);
    assert [c][0] == c;
  }

  lemma {:induction false} BytesSum(s: seq<Chunk>, start: nat, total: nat, header: nat)
    requires Tiles(s, start, total, header)
    ensures AllBytes(s, header) == total
  {
    if |s| > 1 {
      var c := s[1..];
      assert Follows(s, 0, header);
      forall i | 0 <= i < |c| - 1
        ensures Follows(c, i, header)
      {
        assert Follows(s, i + 1, header);
      }
      Within(s, start, total, header, 1);
      BytesSum(c, c[0].addr, start + total - c[0].addr, header);
    } else {
      assert s[1..] == [];
    }
  }
}
