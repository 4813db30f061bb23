/**
 * The head/tail selection policy of a group: all sorted candidates when
 * there are fewer than the requested count, otherwise the first `half` and
 * the last `half` joined, with Python's slice semantics kept exactly
 * (negative bounds count from the end, out-of-range bounds clamp, and
 * `s[-0:]` is the whole list).
 */
module Selection {
  import opened Sequences
  import opened NatSort

  /** The count `process_directory` uses when the caller gives none. */
  const DefaultImagesPerPdf: int := 6

  /** Where a Python slice bound `k` lands in a sequence of length `len`. */
  function SliceBound(len: nat, k: int): (b: nat)
    ensures b <= len
    ensures 0 <= k <= len ==> b == k
    ensures -(len as int) <= k < 0 ==> b == len + k
    ensures k > len ==> b == len
    ensures k < -(len as int) ==> b == 0
  {
    if k >= 0 then (if k <= len then k else len)
    else if len + k >= 0 then len + k
    else 0
  }

  /** Python `s[:k]`: the first `k` elements, or all but the last `-k`. */
  function Take<T>(s: seq<T>, k: int): (r: seq<T>)
    ensures 0 <= k <= |s| ==> r == s[..k]
    ensures -|s| <= k < 0 ==> r == s[..|s| + k]
    ensures k > |s| ==> r == s
    ensures k < -|s| ==> r == []
  {
    s[..SliceBound(|s|, k)]
  }

  /** Python `s[k:]`: all but the first `k` elements, or the last `-k`. */
  function Drop<T>(s: seq<T>, k: int): (r: seq<T>)
    ensures 0 <= k <= |s| ==> r == s[k..]
    ensures -|s| <= k < 0 ==> r == s[|s| + k..] && |r| == -k
    ensures k > |s| ==> r == []
    ensures k < -|s| ==> r == s
  {
    s[SliceBound(|s|, k)..]
  }

  /**
   * The selection for a requested count `n`. Python's `n // 2` floors; for
   * the divisor 2 that is Dafny's `/`.
   */
  function Select<T>(s: seq<T>, n: int): (r: seq<T>)
    ensures |s| < n ==> r == s
    ensures 0 <= n <= 1 ==> r == s
    ensures 2 <= n <= |s| ==> r == s[..n / 2] + s[|s| - n / 2..] && |r| == 2 * (n / 2) <= n
    ensures 0 <= n ==> multiset(r) <= multiset(s)
    ensures 0 <= n ==> (|r| == 0 <==> |s| == 0)
  {
    if |s| < n then s
    else
      var half := n / 2;
      if 0 <= n then
        assert n >= 2 ==> half >= 1;
        assert s == s[..half] + s[half..|s| - half] + s[|s| - half..];
        Take(s, half) + Drop(s, -half)
      else
        Take(s, half) + Drop(s, -half)
  }

  /** The positions of `s` that the selection picks, in order. */
  function SelectedIndices(len: nat, n: nat): (idx: seq<nat>)
  {
    if len < n || n / 2 == 0 then Indices(len)
    else Indices(n / 2) + seq(n / 2, (k: nat) => len - n / 2 + k)
  }

  /** The picked positions increase and stay inside the list: head and tail never overlap. */
  lemma SelectedIndicesIncrease(len: nat, n: nat)
    ensures var idx := SelectedIndices(len, n);
      && StrictlyIncreasing(idx)
      && forall k | 0 <= k < |idx| :: idx[k] < len
  {
    var idx := SelectedIndices(len, n);
    if !(len < n || n / 2 == 0) {
      var h := n / 2;
      assert h <= len - h;
      forall i, j | 0 <= i < j < |idx|
        ensures idx[i] < idx[j]
      {
        if j < h {
          assert idx[i] == i && idx[j] == j;
        } else if i < h {
          assert idx[i] == i && idx[j] == len - h + (j - h);
        } else {
          assert idx[i] == len - h + (i - h) && idx[j] == len - h + (j - h);
        }
      }
      forall k | 0 <= k < |idx|
        ensures idx[k] < len
      {
        if k >= h {
          assert idx[k] == len - h + (k - h);
        }
      }
    }
  }

  /**
   * For a non-negative count the selection is an order-preserving
   * subsequence of the sorted candidates: it is exactly the elements at the
   * increasing positions `SelectedIndices`.
   */
  lemma SelectionIsSubsequence<T>(s: seq<T>, n: nat)
    ensures var idx := SelectedIndices(|s|, n);
      && StrictlyIncreasing(idx)
      && (forall k | 0 <= k < |idx| :: idx[k] < |s|)
      && |Select(s, n)| == |idx|
      && forall k | 0 <= k < |idx| :: Select(s, n)[k] == s[idx[k]]
  {
    SelectedIndicesIncrease(|s|, n);
    if |s| < n || n / 2 == 0 {
      WholeSelectionPicks(s, n);
    } else {
      HeadTailSelectionPicks(s, n);
    }
  }

  lemma WholeSelectionPicks<T>(s: seq<T>, n: nat)
    requires |s| < n || n / 2 == 0
    ensures Select(s, n) == s && SelectedIndices(|s|, n) == Indices(|s|)
  {
  }

  lemma HeadTailSelectionPicks<T>(s: seq<T>, n: nat)
    requires n <= |s| && n / 2 > 0
    ensures var idx := SelectedIndices(|s|, n);
      && |Select(s, n)| == |idx|
      && forall k | 0 <= k < |idx| :: Select(s, n)[k] == s[idx[k]]
  {
    var h := n / 2;
    var idx := SelectedIndices(|s|, n);
    var r := Select(s, n);
    assert r == s[..h] + s[|s| - h..];
    assert |idx| == 2 * h;
    forall k | 0 <= k < |idx|
      ensures r[k] == s[idx[k]]
    {
      if k < h {
        assert idx[k] == k;
        assert r[k] == s[..h][k];
      } else {
        assert idx[k] == |s| - h + (k - h);
        assert r[k] == s[|s| - h..][k - h];
      }
    }
  }

  /** A duplicate-free candidate list gives a duplicate-free selection. */
  lemma SelectionDistinct<T>(s: seq<T>, n: nat)
    requires Distinct(s)
    ensures Distinct(Select(s, n))
  {
    SelectionIsSubsequence(s, n);
    var idx := SelectedIndices(|s|, n);
    var r := Select(s, n);
    forall i, j | 0 <= i < j < |r|
      ensures r[i] != r[j]
    {
      assert idx[i] < idx[j];
    }
  }

  /**
   * A negative count selects `s[:h] + s[-h:]` with `h < 0`: both slices hold
   * the `|s| + h` middle-overlapping positions, so the selection has length
   * `2 * max(0, |s| + h)` and repeats the middle of the list.
   */
  lemma NegativeCountRepeats<T>(s: seq<T>, n: int)
    requires n < 0
    ensures var h := n / 2;
      && h < 0
      && |Select(s, n)| == (if |s| + h >= 0 then 2 * (|s| + h) else 0)
      && (|s| + h >= 0 ==> Select(s, n) == s[..|s| + h] + s[-h..])
  {
  }

  /** A selection with a non-negative count keeps the order of the list it is taken from. */
  lemma SelectKeepsOrder<T>(le: (T, T) -> bool, s: seq<T>, n: nat)
    requires SortedBy(le, s)
    ensures SortedBy(le, Select(s, n))
  {
    SelectionIsSubsequence(s, n);
    var idx := SelectedIndices(|s|, n);
    var r := Select(s, n);
    forall i, j | 0 <= i < j < |r|
      ensures le(r[i], r[j])
    {
      assert idx[i] < idx[j];
    }
  }

  /** With the default count, ten images give the first three and the last three, and two give both. */
  lemma DefaultCountExamples<T>(s: seq<T>)
    requires |s| == 10
    ensures Select(s, DefaultImagesPerPdf) == s[..3] + s[7..]
    ensures Select(s[..2], DefaultImagesPerPdf) == s[..2]
  {
  }

  /**
   * A count that is twice `k` and no larger than the list selects exactly
   * the first `k` and the last `k` elements.
   */
  lemma DoubledCountSelection<T>(s: seq<T>, k: nat)
    requires 1 <= k && 2 * k <= |s|
    ensures Select(s, 2 * k) == s[..k] + s[|s| - k..]
  {
    assert (2 * k) / 2 == k;
  }
}
