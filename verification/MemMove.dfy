/**
  memcpy, memmove and strlcpy (src/lib/libc/string.c) on one address space: `mem[a]` is the byte at address a
  and pointers are addresses below 2^(bits of size_t).
 */
module MemMove {
  import opened Quotients

  newtype byte = x: int | 0 <= x < 256

  /** Both byte ranges lie in the address space. */
  predicate InRange(mem: array<byte>, modulus: nat, i: nat, j: nat, size: nat) {
    mem.Length <= modulus && i + size <= mem.Length && j + size <= mem.Length
  }

  /** The address whose original byte a forward copy puts k bytes into the destination. */
  function ForwardSource(i: nat, j: nat, k: nat): (a: nat)
  {
    if i > j then Pattern(j, k, i - j) else j + k
  }

  /** j + k % d. */
  function Pattern(j: nat, k: nat, d: nat): (a: nat)
    requires d > 0
    ensures k < d ==> a == j + k
    ensures a <= j + k
  {
    DivModBounds(k, d);
    j + k % d
  }

  lemma DivModBounds(k: nat, d: nat)
    requires d > 0
    ensures 0 <= k % d <= k && (k < d ==> k % d == k)
  {
    DividedSmaller(k, d);
    ProductSign(k / d, d);
    assert k == (k / d) * d + k % d;
  }

  lemma PatternPeriodic(j: nat, k: nat, d: nat)
    requires 0 < d <= k
    ensures Pattern(j, k - d, d) == Pattern(j, k, d)
  {
    ModPeriodic(k - d, d);
  }

  lemma ModPeriodic(x: nat, d: nat)
    requires d > 0
    ensures (x + d) % d == x % d
  {
    var q, r := x / d, x % d;
    assert x == q * d + r;
    assert (q + 1) * d == q * d + d;
    ModUnique(x + d, q + 1, d, r);
  }

  lemma ModUnique(x: nat, q: int, d: nat, r: nat)
    requires d > 0 && x == q * d + r && r < d
    ensures x % d == r
  {
    var e := x / d - q;
    assert x == (x / d) * d + x % d;
    assert e * d == (x / d) * d - q * d;
    ProductSign(e - 1, d);
    ProductSign(e + 1, d);
    assert (e - 1) * d == e * d - d && (e + 1) * d == e * d + d;
  }

  /** Where byte k of the source is once k bytes have been copied: untouched, or a byte already copied. */
  lemma SourceStep(i: nat, j: nat, k: nat)
    ensures if i <= j + k < i + k then ForwardSource(i, j, j + k - i) == ForwardSource(i, j, k)
            else ForwardSource(i, j, k) == j + k
  {
    if i > j && k >= i - j {
      PatternPeriodic(j, k, i - j);
    }
  }

  /**
    memcpy for any two ranges, overlapping or not: when the destination starts inside the source the
    first bytes are repeated: each byte then equals the new one i - j places before it. It returns the
    end of the destination, not its start.
   */
  method MemCpy(mem: array<byte>, ghost modulus: nat, i: nat, j: nat, size: nat) returns (r: nat)
    requires InRange(mem, modulus, i, j, size)
    modifies mem
    ensures r == i + size
    ensures forall a :: 0 <= a < mem.Length ==>
              mem[a] == old(mem[if i <= a < i + size then ForwardSource(i, j, a - i) else a])
    ensures i <= j ==> forall a :: i <= a < i + size ==> mem[a] == old(mem[a - i + j])
    ensures i > j ==> forall a :: i <= a < i + size ==> mem[a] == mem[a - i + j]
  {
    var src, dst, left := j, i, size;
    ghost var k := 0;
    while left > 0
      invariant k == size - left && 0 <= left <= size && src == j + k && dst == i + k
      invariant forall a :: 0 <= a < mem.Length ==>
                  mem[a] == old(mem[if i <= a < i + k then ForwardSource(i, j, a - i) else a])
    {
      left := left - 1;
      SourceStep(i, j, k);
      mem[dst] := mem[src];
      src := src + 1;
      dst := dst + 1;
      k := k + 1;
    }
    r := dst;
    if i > j {
      forall a | i <= a < i + size
        ensures mem[a] == mem[a - i + j]
      {
        SourceStep(i, j, a - i);
      }
    }
  }

  /** The comparison of line 58, on unsigned pointers: the distance wraps when i < j. */
  function TestForward(i: nat, j: nat, size: nat, modulus: nat): bool
    requires modulus > 0
  {
    (i - j) % modulus >= size
  }

  /** The single test sends to memcpy exactly the copies that memcpy gets right, except the copy onto itself. */
  lemma ForwardIffSafe(i: nat, j: nat, size: nat, modulus: nat)
    requires i + size <= modulus && j + size <= modulus && modulus > 0 && size > 0
    ensures TestForward(i, j, size, modulus) <==> i < j || i >= j + size
  {
    if i >= j {
      DivModBounds(i - j, modulus);
    } else {
      NegativeMod(j - i, modulus);
      assert i - j == 0 - (j - i);
    }
  }

  lemma NegativeMod(x: nat, m: nat)
    requires 0 < x <= m
    ensures (0 - x) % m == m - x
  {
  }

  /** Lines 66-78: from the last byte to the first. */
  method CopyBackward(mem: array<byte>, ghost modulus: nat, i: nat, j: nat, size: nat)
    requires InRange(mem, modulus, i, j, size) && j <= i
    modifies mem
    ensures forall a :: 0 <= a < mem.Length ==>
              mem[a] == old(mem[if i <= a < i + size then a - i + j else a])
  {
    var end := i;
    var src := j + size;
    var dst := i + size;
    while dst != end
      invariant end <= dst <= i + size && src == dst - i + j
      invariant forall a :: 0 <= a < mem.Length ==>
                  mem[a] == old(mem[if dst <= a < i + size then a - i + j else a])
      decreases dst - end
    {
      dst := dst - 1;
      src := src - 1;
      mem[dst] := mem[src];
    }
  }

  /** memmove: the destination ends up with the original source bytes and nothing else changes. */
  method Move(mem: array<byte>, modulus: nat, i: nat, j: nat, size: nat) returns (r: nat)
    requires InRange(mem, modulus, i, j, size) && modulus > 0
    modifies mem
    ensures r == i
    ensures forall a :: 0 <= a < mem.Length ==>
              mem[a] == old(mem[if i <= a < i + size then a - i + j else a])
  {
    if size > 0 {
      ForwardIffSafe(i, j, size, modulus);
    }
    if TestForward(i, j, size, modulus) {
      var _ := MemCpy(mem, modulus, i, j, size);
    } else {
      CopyBackward(mem, modulus, i, j, size);
    }
    r := i;
  }

  // ----- strlcpy -----

  /** The bytes of a C string and its terminator. */
  predicate IsCString(s: seq<byte>) {
    |s| > 0 && s[|s| - 1] == 0 && forall k :: 0 <= k < |s| - 1 ==> s[k] != 0
  }

  /** The loop: the bytes of the string, its terminator among them if there is room for one more. */
  method CopyString(i: array<byte>, s: seq<byte>, size: nat) returns (left: nat, j: nat)
    requires IsCString(s) && 0 < size <= i.Length
    modifies i
    ensures j == (if |s| < size then |s| else size - 1) && (left == 0 <==> j == size - 1 && j < |s|)
    ensures forall k :: 0 <= k < i.Length ==> i[k] == if k < j then s[k] else old(i[k])
  {
    left, j := size - 1, 0;
    while left > 0
      invariant left < size && j == size - 1 - left && j < |s|
      invariant forall k :: 0 <= k < i.Length ==> i[k] == if k < j then s[k] else old(i[k])
      decreases left
    {
      i[j] := s[j];
      j := j + 1;
      if s[j - 1] == 0 {
        return;
      }
      left := left - 1;
    }
  }

  /**
    strlcpy from a C string to a buffer of its own: the string, cut off to fit and terminated. The result
    is the length of the string exactly when there would have been room for one byte more.
   */
  method StrLcpy(i: array<byte>, s: seq<byte>, size: nat, modulus: nat) returns (r: nat)
    requires IsCString(s) && size <= i.Length < modulus && |s| < modulus
    modifies i
    ensures var n := if |s| <= size then |s| - 1 else size - 1;
      forall k :: 0 <= k < i.Length ==>
        i[k] == if size > 0 && k < n then s[k] else if size > 0 && k == n then 0 else old(i[k])
    ensures r == if |s| < size then |s| - 1 else if size <= 1 then modulus - 1 else size - 2
    ensures r == |s| - 1 <==> |s| < size
  {
    var left, j := 0, 0;
    if size > 0 {
      left, j := CopyString(i, s, size);
      if left == 0 {
        i[j] := 0;
      }
    }
    r := if j == 0 then modulus - 1 else j - 1;
  }
}
