/**
  The byte arithmetic of walking a cluster chain (stuos/src/fs_fat.c). Products and
  quotients by the cluster size are written recursively, so that proofs about chains stay
  linear; `TimesIsProduct` and `DivIsQuotient` say what they are.
 */
module FatArithmetic {

  function Times(i: nat, size: nat): nat {
    if i == 0 then 0 else Times(i - 1, size) + size
  }

  function Div(a: nat, size: nat): nat
    requires 0 < size
    decreases a
  {
    if a < size then 0 else Div(a - size, size) + 1
  }

  lemma {:induction false} TimesIsProduct(i: nat, size: nat)
    ensures Times(i, size) == i * size
  {
    if i == 0 {
    } else {
      TimesIsProduct(i - 1, size);
      calc {
        Times(i, size);
        (i - 1) * size + size;
        i * size;
      }
    }
  }

  lemma {:induction false} TimesAdd(i: nat, j: nat, size: nat)
    ensures Times(i + j, size) == Times(i, size) + Times(j, size)
  {
    if j == 0 {
    } else {
      TimesAdd(i, j - 1, size);
    }
  }

  lemma DivIsQuotient(a: nat, size: nat)
    requires 0 < size
    ensures Div(a, size) == a / size
    ensures Times(Div(a, size), size) + a % size == a
  {
    var q := Div(a, size);
    DivBounds(a, size);
    TimesIsProduct(q, size);
    QuotientIs(a, size, q, a - q * size);
  }

  lemma QuotientIs(a: nat, size: nat, q: nat, rest: nat)
    requires rest < size && a == q * size + rest
    ensures a / size == q && a % size == rest
  {
    DifferenceOfMultiples(a / size, q, size);
    SmallMultiple(a / size - q, size);
  }

  lemma DifferenceOfMultiples(p: int, q: int, size: int)
    ensures (p - q) * size == p * size - q * size
  {
  }

  lemma SmallMultiple(d: int, size: int)
    requires -size < d * size < size
    ensures d == 0
  {
  }

  lemma {:induction false} DivBounds(a: nat, size: nat)
    requires 0 < size
    ensures Times(Div(a, size), size) <= a < Times(Div(a, size), size) + size
    decreases a
  {
    if a < size {
    } else {
      DivBounds(a - size, size);
    }
  }

  lemma {:induction false} DivIs(a: nat, size: nat, q: nat)
    requires Times(q, size) <= a < Times(q, size) + size
    ensures Div(a, size) == q
    decreases q
  {
    if q == 0 {
    } else {
      DivIs(a - size, size, q - 1);
    }
  }

  lemma {:induction false} DivAtLeast(a: nat, size: nat, q: nat)
    requires 0 < size && Times(q, size) <= a
    ensures q <= Div(a, size)
    decreases q
  {
    if q == 0 {
    } else {
      DivAtLeast(a - size, size, q - 1);
    }
  }

  /** A byte below `q` clusters lies in one of them. */
  lemma TimesReflects(i: nat, q: nat, a: nat, size: nat)
    requires 0 < size && i <= Div(a, size) && a < Times(q, size)
    ensures i < q
  {
    if q <= Div(a, size) {
      DivBounds(a, size);
      TimesAdd(q, Div(a, size) - q, size);
    }
  }

  /** How many clusters a chain of `length` clusters has after `n` bytes are written at `off`. */
  function LengthAfterWrite(length: nat, size: nat, off: nat, n: nat): nat
    requires 0 < size
  {
    if n == 0 || length >= Div(off + n - 1, size) + 2 then length else Div(off + n - 1, size) + 2
  }

  lemma LengthNeverShrinks(length: nat, size: nat, off: nat, n: nat)
    requires 0 < size
    ensures length <= LengthAfterWrite(length, size, off, n)
  {
  }

  lemma LengthAfterWriteIs(length: nat, size: nat, off: nat, n: nat)
    requires 0 < size && 0 < n
    ensures LengthAfterWrite(length, size, off, n)
            == if length >= (off + n - 1) / size + 2 then length else (off + n - 1) / size + 2
  {
    DivIsQuotient(off + n - 1, size);
  }

  /** Where the part of a request that lies in cluster `i` starts in that cluster. */
  function OffsetInCluster(off: nat, size: nat, i: nat): nat
    requires 0 < size
  {
    if i == Div(off, size) && Times(i, size) <= off then off - Times(i, size) else 0
  }

  /** Before cluster `i` is visited, `done` of the `n` bytes at `off` have been transferred. */
  ghost predicate Progress(off: nat, size: nat, n: nat, i: nat, done: nat)
    requires 0 < size
  {
    && done <= n
    && (done < n ==>
          && (i <= Div(off, size) ==> done == 0)
          && (Div(off, size) < i ==> off + done == Times(i, size))
          && i <= Div(off + n - 1, size))
    && (done == n && 0 < n ==> i == Div(off + n - 1, size) + 1)
  }

  lemma ProgressStarts(off: nat, size: nat, n: nat)
    requires 0 < size
    ensures Progress(off, size, n, 0, 0)
  {
  }

  lemma ProgressSkips(off: nat, size: nat, n: nat, i: nat)
    requires 0 < size && Progress(off, size, n, i, 0) && 0 < n && i < Div(off, size)
    ensures Progress(off, size, n, i + 1, 0)
  {
    DivBounds(off, size);
    DivAtLeast(off + n - 1, size, Div(off, size));
  }

  /** Transferring what fits of the request into cluster `i`, and moving on to the next cluster. */
  lemma ProgressTransfers(off: nat, size: nat, n: nat, i: nat, done: nat, m: nat)
    requires 0 < size && Progress(off, size, n, i, done) && done < n && Div(off, size) <= i
    requires var available := size - OffsetInCluster(off, size, i);
             m == if n - done > available then available else n - done
    ensures off + done == Times(i, size) + OffsetInCluster(off, size, i)
    ensures 0 < m && OffsetInCluster(off, size, i) + m <= size
    ensures Progress(off, size, n, i + 1, done + m)
  {
    DivBounds(off, size);
    if done + m == n {
      DivIs(off + n - 1, size, i);
    } else {
      DivAtLeast(off + n - 1, size, i + 1);
    }
  }

  /** A walk that stops for want of clusters before cluster `i + 1` needed at least that one. */
  lemma FailsForLength(length: nat, size: nat, off: nat, n: nat, i: nat)
    requires 0 < size && 0 < n && i <= Div(off + n - 1, size)
    ensures i + 1 < LengthAfterWrite(length, size, off, n)
  {
  }
}
