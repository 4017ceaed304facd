/**
  clint_read_time (src/platform/sifive/common_fe310/hal/clint/clint.c): a 64-bit counter read through
  two 32-bit registers while it runs. `mtime(i)` is the counter at the instant of the i-th register
  access; between any two accesses it may advance by any amount.
 */
module Clint {

  const WORD: nat := 0x1_0000_0000

  ghost predicate Counter(mtime: nat -> nat) {
    && (forall i :: mtime(i) < WORD * WORD)
    && (forall i, j :: i <= j ==> mtime(i) <= mtime(j))
  }

  function High(x: nat): nat { x / WORD }
  function Low(x: nat): nat { x % WORD }

  /**
    One call whose first register access is number `start`. The value is the whole counter at the
    accepted low-word access `at`. The loop ends, after at most three accesses more than three for
    each time the high word changed.
   */
  method ReadTime(mtime: nat -> nat, start: nat) returns (value: nat, at: nat, next: nat)
    requires Counter(mtime)
    ensures start < at < next
    ensures value == mtime(at)
    ensures next - start <= 3 * (1 + High(mtime(next)) - High(mtime(start)))
  {
    var i := start;
    while true
      invariant start <= i
      invariant i - start <= 3 * (High(mtime(i)) - High(mtime(start)))
      decreases WORD - High(mtime(i))
    {
      var temp := High(mtime(i));
      var tl := Low(mtime(i + 1));
      var th := High(mtime(i + 2));
      HighMonotone(mtime, i, i + 1);
      HighMonotone(mtime, i + 1, i + 2);
      HighMonotone(mtime, i + 2, i + 3);
      i := i + 3;
      if temp == th {
        return th * WORD + tl, i - 2, i;
      }
    }
  }

  lemma HighMonotone(mtime: nat -> nat, i: nat, j: nat)
    requires Counter(mtime) && i <= j
    ensures High(mtime(i)) <= High(mtime(j)) < WORD
  {
    assert mtime(i) <= mtime(j) < WORD * WORD;
  }

  /** A later call never returns an earlier time. */
  method ReadTwice(mtime: nat -> nat, start: nat, gap: nat) returns (first: nat, second: nat)
    requires Counter(mtime)
    ensures first <= second
  {
    var at, next, at', next';
    first, at, next := ReadTime(mtime, start);
    second, at', next' := ReadTime(mtime, next + gap);
    assert mtime(at) <= mtime(at');
  }

  /** Why the loop compares: without it the halves can belong to different times, off by a whole high-word step. */
  lemma UncheckedReadTears(mtime: nat -> nat, i: nat)
    requires Counter(mtime)
    ensures High(mtime(i)) * WORD + Low(mtime(i + 1)) == mtime(i + 1) <==> High(mtime(i)) == High(mtime(i + 1))
  {
  }
}
