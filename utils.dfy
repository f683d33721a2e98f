/** Model of application/utils.py: the list partitioner `split_list`.
    (`check_alive`, the HTTP probe, is not modelled here: workers receive
    its outcomes as a parameter.) */
module Utils {

  datatype Option<T> = None | Some(value: T)

  function Min(a: int, b: int): int
  {
    if a < b then a else b
  }

  /** The indices 0, 1, ..., n - 1, as `range(n)` produces them. */
  function Range(n: nat): (r: seq<nat>)
    ensures |r| == n
    ensures forall i :: 0 <= i < n ==> r[i] == i
  {
    seq(n, i requires 0 <= i < n => i)
  }

  /** Concatenation of a sequence of sequences, in order. */
  function Flatten<T>(ss: seq<seq<T>>): seq<T>
  {
    if ss == [] then [] else Flatten(ss[..|ss| - 1]) + ss[|ss| - 1]
  }

  /** Total length of a sequence of sequences. */
  function SumLengths<T>(ss: seq<seq<T>>): nat
  {
    if ss == [] then 0 else |ss[0]| + SumLengths(ss[1..])
  }

  lemma {:induction false} SumLengthsSnoc<T>(ss: seq<seq<T>>)
    requires ss != []
    ensures SumLengths(ss) == SumLengths(ss[..|ss| - 1]) + |ss[|ss| - 1]|
  {
    if |ss| > 1 {
      assert ss[1..][..|ss[1..]| - 1] == ss[..|ss| - 1][1..];
      SumLengthsSnoc(ss[1..]);
    }
  }

  lemma {:induction false} FlattenLength<T>(ss: seq<seq<T>>)
    ensures |Flatten(ss)| == SumLengths(ss)
  {
    if ss != [] {
      FlattenLength(ss[..|ss| - 1]);
      SumLengthsSnoc(ss);
    }
  }

  /** Where slice `i` of `split_list` starts, for a list of length `len` split
      into `n` parts: `i * k + min(i, m)` with `k, m = divmod(len, n)`. Slice `i`
      ends where slice `i + 1` starts. */
  function SliceStart(len: nat, n: nat, i: nat): nat
    requires n >= 1
  {
    i * (len / n) + Min(i, len % n)
  }

  lemma MulStep(i: nat, k: nat)
    ensures (i + 1) * k == i * k + k
  {
  }

  lemma {:induction false} MulMonotone(a: nat, b: nat, k: nat)
    requires a <= b
    ensures a * k <= b * k
  {
    if a < b {
      MulMonotone(a, b - 1, k);
      MulStep(b - 1, k);
    }
  }

  lemma DivOfSmaller(len: nat, n: nat)
    requires len < n
    ensures len / n == 0 && len % n == len
  {
  }

  /** Slice `i` holds `k + 1` elements for the first `m` slices and `k` after,
      and the bounds climb from 0 to `len`. */
  lemma SliceBounds(len: nat, n: nat, i: nat)
    requires n >= 1 && i < n
    ensures SliceStart(len, n, 0) == 0
    ensures SliceStart(len, n, i + 1) ==
            SliceStart(len, n, i) + len / n + (if i < len % n then 1 else 0)
    ensures SliceStart(len, n, i + 1) <= len
  {
    var k, m := len / n, len % n;
    assert len == n * k + m;
    MulStep(i, k);
    MulMonotone(i + 1, n, k);
  }

  /** Every bound lies in `[0, len]`, and bounds never decrease. */
  lemma {:induction false} SliceStartMonotone(len: nat, n: nat, i: nat, j: nat)
    requires n >= 1 && i <= j <= n
    ensures SliceStart(len, n, i) <= SliceStart(len, n, j) <= len
  {
    if j == 0 {
      assert SliceStart(len, n, 0) == 0;
    } else if i == j {
      SliceBounds(len, n, j - 1);
    } else {
      SliceStartMonotone(len, n, i, j - 1);
      SliceBounds(len, n, j - 1);
    }
  }

  lemma AllSliceBounds(len: nat, n: nat)
    requires n >= 1
    ensures forall i, j :: 0 <= i <= j <= n ==> SliceStart(len, n, i) <= SliceStart(len, n, j) <= len
  {
    forall i, j | 0 <= i <= j <= n
      ensures SliceStart(len, n, i) <= SliceStart(len, n, j) <= len
    {
      SliceStartMonotone(len, n, i, j);
    }
  }

  /** `split_list(li, n)`: `n` contiguous slices of `li`. A negative `n` gives
      no slices (`range(n)` is empty); `n == 0` makes `divmod` raise, so the
      caller must not pass it. */
  function SplitList<T>(li: seq<T>, n: int): (slices: seq<seq<T>>)
    requires n != 0
    ensures |slices| == if n > 0 then n else 0
  {
    if n < 0 then []
    else
      AllSliceBounds(|li|, n);
      seq(n, i requires 0 <= i < n => li[SliceStart(|li|, n, i)..SliceStart(|li|, n, i + 1)])
  }

  /** Slice `i` is the part of `li` between its bounds; its length is `k + 1`
      for the first `m` slices and `k` for the rest, `k, m = divmod(|li|, n)`. */
  lemma {:induction false} SplitListSlice<T>(li: seq<T>, n: int, i: nat)
    requires n >= 1 && i < n
    ensures SliceStart(|li|, n, i) <= SliceStart(|li|, n, i + 1) <= |li|
    ensures SplitList(li, n)[i] == li[SliceStart(|li|, n, i)..SliceStart(|li|, n, i + 1)]
    ensures |SplitList(li, n)[i]| == |li| / n + (if i < |li| % n then 1 else 0)
  {
    SliceBounds(|li|, n, i);
    SplitListAt(li, n, i);
  }

  lemma SplitListAt<T>(li: seq<T>, n: int, i: nat)
    requires n >= 1 && i < n
    ensures SliceStart(|li|, n, i) <= SliceStart(|li|, n, i + 1) <= |li|
    ensures SplitList(li, n)[i] == li[SliceStart(|li|, n, i)..SliceStart(|li|, n, i + 1)]
  {
    SliceStartMonotone(|li|, n, i, i + 1);
  }

  /** Sizes differ by at most one, and the larger slices come first. */
  lemma {:induction false} SplitListBalanced<T>(li: seq<T>, n: int, i: nat, j: nat)
    requires n >= 1 && i <= j < n
    ensures |SplitList(li, n)[j]| <= |SplitList(li, n)[i]| <= |SplitList(li, n)[j]| + 1
  {
    SplitListSlice(li, n, i);
    SplitListSlice(li, n, j);
  }

  /** When there are more slices than elements, every slice from index `|li|`
      on is empty (and the ones before hold one element each). */
  lemma {:induction false} SplitListTrailingEmpty<T>(li: seq<T>, n: int, i: nat)
    requires |li| < n && i < n
    ensures |SplitList(li, n)[i]| == if i < |li| then 1 else 0
  {
    SplitListSlice(li, n, i);
    DivOfSmaller(|li|, n);
  }

  /** The first `j` slices, concatenated, are the prefix of `li` up to slice
      `j`'s start bound. */
  lemma {:induction false} SplitListPrefix<T>(li: seq<T>, n: int, j: nat)
    requires n >= 1 && j <= n
    ensures SliceStart(|li|, n, j) <= |li|
    ensures Flatten(SplitList(li, n)[..j]) == li[..SliceStart(|li|, n, j)]
  {
    var slices := SplitList(li, n);
    if j == 0 {
      assert slices[..0] == [];
    } else {
      SplitListPrefix(li, n, j - 1);
      SplitListSlice(li, n, j - 1);
      var a, b := SliceStart(|li|, n, j - 1), SliceStart(|li|, n, j);
      assert slices[..j][..j - 1] == slices[..j - 1];
      assert Flatten(slices[..j]) == li[..a] + li[a..b];
      assert li[..a] + li[a..b] == li[..b];
    }
  }

  /** Concatenating the slices in order gives back `li` exactly: every
      element lands in exactly one slice, and order is kept. */
  lemma {:induction false} SplitListTiles<T>(li: seq<T>, n: int)
    requires n >= 1
    ensures Flatten(SplitList(li, n)) == li
  {
    var slices := SplitList(li, n);
    SplitListPrefix(li, n, n);
    assert slices[..n] == slices;
    SliceBounds(|li|, n, n - 1);
    assert SliceStart(|li|, n, n) == |li| by {
      assert |li| == n * (|li| / n) + |li| % n;
    }
    assert li[..|li|] == li;
  }
}
