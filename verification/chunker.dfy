/** Character-window chunking as the chunk loop of `_process_content` performs it:
    Python's `range(0, total, size)` supplies the offsets and `content[i:i+size]`
    cuts one window at each offset. */
module Chunker {
  import opened Wrappers

  function Min(a: int, b: int): int
  {
    if a <= b then a else b
  }

  /** ceil(n / d) for a positive divisor. */
  function CeilDiv(n: nat, d: nat): nat
    requires d > 0
  {
    (n + d - 1) / d
  }

  /** The message of the `ValueError` that `range` raises for a zero step. */
  const RangeStepZero: string := "range() arg 3 must not be zero"

  /** The values of `range(start, stop, step)` for a positive step, produced the way the
      loop steps through them: `start`, then `start + step`, while below `stop`. */
  function RangeFrom(start: nat, stop: nat, step: nat): seq<nat>
    requires step > 0
    decreases stop - start
  {
    if start >= stop then [] else [start] + RangeFrom(start + step, stop, step)
  }

  /** Python's `range(0, stop, step)`: a zero step raises, a negative step from 0 up to a
      non-negative stop is empty, and a positive step yields the multiples of `step`
      below `stop`, in increasing order. */
  function Range(stop: nat, step: int): (r: Result<seq<nat>, PyException>)
    ensures r.Failure? <==> step == 0
    ensures r.Failure? ==> r.error == ValueError(RangeStepZero)
    ensures step < 0 ==> r == Success([])
    ensures step > 0 ==> r.Success? && |r.value| == CeilDiv(stop, step)
    ensures step > 0 ==> forall k :: 0 <= k < |r.value| ==> r.value[k] == k * step
    ensures step > 0 ==> forall k :: 0 <= k < |r.value| ==> r.value[k] < stop
  {
    if step == 0 then Failure(ValueError(RangeStepZero))
    else if step < 0 then Success([])
    else
      RangeFromShape(0, stop, step);
      Success(RangeFrom(0, stop, step))
  }

  /** The offset of window k, the k-th value of `range(0, total, size)`. */
  function Offset(k: nat, size: nat): nat
  {
    k * size
  }

  /** Python's `s[i:j]` for non-negative bounds: both bounds are clipped to `|s|`, and
      crossed bounds give the empty string. */
  function Slice(s: string, i: nat, j: nat): (r: string)
    ensures i <= j <= |s| ==> r == s[i..j]
    ensures i <= |s| <= j ==> r == s[i..]
    ensures |s| <= i || j <= i ==> r == []
  {
    var lo := Min(i, |s|);
    var hi := Min(j, |s|);
    if hi <= lo then [] else s[lo..hi]
  }

  /** The windows the chunk loop cuts: one `Slice(content, i, i + size)` for every offset
      `i` of `range(0, |content|, size)`, in offset order. */
  function Windows(content: string, size: nat): seq<string>
    requires size > 0
  {
    var offsets := RangeFrom(0, |content|, size);
    seq(|offsets|, k requires 0 <= k < |offsets| => Slice(content, offsets[k], offsets[k] + size))
  }

  /** The in-order concatenation of a sequence of strings. */
  function Concat(cs: seq<string>): string
  {
    if |cs| == 0 then [] else Concat(cs[..|cs| - 1]) + cs[|cs| - 1]
  }

  /** `cs` cuts `content` into consecutive non-empty pieces of at most `size` characters,
      of which only the last may be shorter than `size`. */
  predicate IsPartition(cs: seq<string>, content: string, size: nat)
  {
    && Concat(cs) == content
    && (forall k :: 0 <= k < |cs| ==> 0 < |cs[k]| <= size)
    && (forall k :: 0 <= k < |cs| - 1 ==> |cs[k]| == size)
  }

  // ---------------------------------------------------------------------------
  // Arithmetic facts about ceil(n / d)

  lemma MulLe(a: nat, b: nat, d: nat)
    requires a <= b
    ensures a * d <= b * d
  {
    assert b * d == a * d + (b - a) * d;
  }

  lemma MulSucc(k: nat, d: nat)
    ensures (k + 1) * d == k * d + d
  {
  }

  /** ceil(n / d) * d is the least multiple of d that is at least n. */
  lemma CeilDivBounds(n: nat, d: nat)
    requires d > 0
    ensures CeilDiv(n, d) * d >= n
    ensures CeilDiv(n, d) == 0 || (CeilDiv(n, d) - 1) * d < n
  {
    var a := n + d - 1;
    var q := a / d;
    var r := a % d;
    assert a == q * d + r && 0 <= r < d;
    assert q * d == n + d - 1 - r;
    if q > 0 {
      assert (q - 1) * d == q * d - d;
    }
  }

  /** The k-th multiple of d is below n exactly when k < ceil(n / d): an offset is
      visited by `range(0, n, d)` exactly when it lies inside the content. */
  lemma CeilDivLt(n: nat, d: nat, k: nat)
    requires d > 0
    ensures k < CeilDiv(n, d) <==> k * d < n
  {
    var q := CeilDiv(n, d);
    CeilDivBounds(n, d);
    if k < q {
      MulLe(k, q - 1, d);
    } else {
      MulLe(q, k, d);
    }
  }

  lemma CeilDivStep(n: nat, d: nat)
    requires d > 0 && n > 0
    ensures n <= d ==> CeilDiv(n, d) == 1
    ensures n > d ==> CeilDiv(n, d) == 1 + CeilDiv(n - d, d)
  {
    if n <= d {
      CeilDivLt(n, d, 0);
      CeilDivLt(n, d, 1);
    } else {
      var q' := CeilDiv(n - d, d);
      CeilDivBounds(n - d, d);
      assert (q' + 1) * d == q' * d + d;
      assert q' * d < n;
      CeilDivLt(n, d, q');
      CeilDivLt(n, d, q' + 1);
    }
  }

  // ---------------------------------------------------------------------------
  // The offsets of the chunk loop

  /** `range(start, stop, step)` holds ceil((stop - start) / step) values, the k-th of them
      `start + k * step`. */
  lemma {:induction false} RangeFromShape(start: nat, stop: nat, step: nat)
    requires step > 0
    ensures start >= stop ==> RangeFrom(start, stop, step) == []
    ensures start < stop ==> |RangeFrom(start, stop, step)| == CeilDiv(stop - start, step)
    ensures forall k :: 0 <= k < |RangeFrom(start, stop, step)| ==> RangeFrom(start, stop, step)[k] == start + k * step
    ensures forall k :: 0 <= k < |RangeFrom(start, stop, step)| ==> RangeFrom(start, stop, step)[k] < stop
    decreases stop - start
  {
    if start < stop {
      var rest := RangeFrom(start + step, stop, step);
      RangeFromShape(start + step, stop, step);
      CeilDivStep(stop - start, step);
      assert RangeFrom(start, stop, step) == [start] + rest;
      forall k | 0 < k < |RangeFrom(start, stop, step)|
        ensures RangeFrom(start, stop, step)[k] == start + k * step
        ensures RangeFrom(start, stop, step)[k] < stop
      {
        assert RangeFrom(start, stop, step)[k] == rest[k - 1];
      }
    }
  }

  // ---------------------------------------------------------------------------
  // The windows form a partition of the content

  /** Window k is `content[k*size..]` cut at the next multiple of `size` or at the end. */
  lemma WindowAt(content: string, size: nat, k: nat)
    requires size > 0
    requires k < |Windows(content, size)|
    ensures k * size < |content|
    ensures Windows(content, size)[k] == content[k * size .. Min(k * size + size, |content|)]
    ensures 0 < |Windows(content, size)[k]| <= size
    ensures k * size + size <= |content| ==> |Windows(content, size)[k]| == size
  {
    RangeFromShape(0, |content|, size);
    var offsets := RangeFrom(0, |content|, size);
    var o := offsets[k];
    assert o == k * size;
    assert o < |content|;
    assert Windows(content, size)[k] == Slice(content, o, o + size);
  }

  /** Window k is the slice `content[k*size : k*size+size]`, taken at an offset inside
      the content. */
  lemma WindowIsSlice(content: string, size: nat, k: nat)
    requires size > 0
    requires k < |Windows(content, size)|
    ensures k * size < |content|
    ensures Windows(content, size)[k] == Slice(content, k * size, k * size + size)
  {
    RangeFromShape(0, |content|, size);
    var offsets := RangeFrom(0, |content|, size);
    var o := offsets[k];
    assert o == k * size && o < |content|;
    assert Windows(content, size)[k] == Slice(content, o, o + size);
  }

  /** The windows are cut at exactly the offsets `range(0, len(content), size)` yields,
      one window per offset and in the same order. */
  lemma WindowsFollowRange(content: string, size: nat)
    requires size > 0
    ensures Range(|content|, size).Success?
    ensures |Windows(content, size)| == |Range(|content|, size).value|
    ensures forall k :: 0 <= k < |Windows(content, size)| ==>
      var i := Range(|content|, size).value[k];
      Windows(content, size)[k] == Slice(content, i, i + size)
  {
  }

  /** Every window is the slice of the content at its offset. */
  lemma WindowsAreSlices(content: string, size: nat)
    requires size > 0
    ensures forall k: nat :: k < |Windows(content, size)| ==>
      var i := Offset(k, size);
      i < |content| && Windows(content, size)[k] == Slice(content, i, i + size)
  {
    forall k: nat | k < |Windows(content, size)|
      ensures var i := Offset(k, size);
        i < |content| && Windows(content, size)[k] == Slice(content, i, i + size)
    {
      WindowIsSlice(content, size, k);
    }
  }

  /** There are ceil(|content| / size) windows. */
  lemma WindowCount(content: string, size: nat)
    requires size > 0
    ensures |Windows(content, size)| == CeilDiv(|content|, size)
  {
    RangeFromShape(0, |content|, size);
    if |content| == 0 {
      CeilDivLt(0, size, 0);
    }
  }

  /** There are ceil(|content| / size) windows; window k is `content[k*size..]` cut at
      the next multiple of `size` or at the end; each is non-empty and at most `size`
      long, and only the last may be shorter. */
  lemma WindowsShape(content: string, size: nat)
    requires size > 0
    ensures |Windows(content, size)| == CeilDiv(|content|, size)
    ensures forall k :: 0 <= k < |Windows(content, size)| ==>
      k * size < |content| && Windows(content, size)[k] == content[k * size .. Min(k * size + size, |content|)]
    ensures forall k :: 0 <= k < |Windows(content, size)| ==> 0 < |Windows(content, size)[k]| <= size
    ensures forall k :: 0 <= k < |Windows(content, size)| - 1 ==> |Windows(content, size)[k]| == size
  {
    var ws := Windows(content, size);
    WindowCount(content, size);
    forall k | 0 <= k < |ws|
      ensures k * size < |content|
      ensures ws[k] == content[k * size .. Min(k * size + size, |content|)]
      ensures 0 < |ws[k]| <= size
    {
      WindowAt(content, size, k);
    }
    forall k | 0 <= k < |ws| - 1
      ensures |ws[k]| == size
    {
      WindowAt(content, size, k);
      WindowFull(content, size, k);
    }
  }

  /** Every window before the last is a full `size` characters. */
  lemma WindowFull(content: string, size: nat, k: nat)
    requires size > 0
    requires k + 1 < |Windows(content, size)|
    ensures |Windows(content, size)[k]| == size
  {
    WindowCount(content, size);
    CeilDivLt(|content|, size, k + 1);
    assert (k + 1) * size == k * size + size;
    WindowAt(content, size, k);
  }

  /** Offset `k * size` is visited by the chunk loop exactly when it lies inside the content. */
  lemma WindowVisited(content: string, size: nat, k: nat)
    requires size > 0
    ensures k < |Windows(content, size)| <==> k * size < |content|
  {
    WindowsShape(content, size);
    CeilDivLt(|content|, size, k);
  }

  lemma {:induction false} ConcatAppend(a: seq<string>, b: seq<string>)
    ensures Concat(a + b) == Concat(a) + Concat(b)
    decreases |b|
  {
    if |b| > 0 {
      var b' := b[..|b| - 1];
      assert (a + b)[..|a + b| - 1] == a + b';
      ConcatAppend(a, b');
    } else {
      assert a + b == a;
    }
  }

  /** The first m windows concatenate to the first min(m * size, |content|) characters. */
  lemma {:induction false} WindowsPrefix(content: string, size: nat, m: nat)
    requires size > 0
    requires m <= |Windows(content, size)|
    ensures Concat(Windows(content, size)[..m]) == content[..Min(m * size, |content|)]
  {
    var ws := Windows(content, size);
    if m == 0 {
      assert ws[..0] == [];
    } else {
      WindowsPrefix(content, size, m - 1);
      WindowAt(content, size, m - 1);
      var lo := (m - 1) * size;
      assert m * size == lo + size;
      assert ws[..m][..m - 1] == ws[..m - 1];
      assert Concat(ws[..m]) == Concat(ws[..m - 1]) + ws[m - 1];
      assert Concat(ws[..m - 1]) == content[..lo];
      assert ws[m - 1] == content[lo .. Min(lo + size, |content|)];
      assert content[..lo] + content[lo .. Min(lo + size, |content|)] == content[..Min(lo + size, |content|)];
    }
  }

  /** Concatenating the windows in order reproduces the content exactly. */
  lemma WindowsReassemble(content: string, size: nat)
    requires size > 0
    ensures Concat(Windows(content, size)) == content
  {
    var ws := Windows(content, size);
    WindowsPrefix(content, size, |ws|);
    WindowsShape(content, size);
    CeilDivLt(|content|, size, |ws|);
    assert ws[..|ws|] == ws;
  }

  lemma {:induction false} ConcatLength(cs: seq<string>, size: nat, m: nat)
    requires m <= |cs|
    requires forall k :: 0 <= k < m ==> |cs[k]| == size
    ensures |Concat(cs[..m])| == m * size
  {
    if m > 0 {
      ConcatLength(cs, size, m - 1);
      assert cs[..m][..m - 1] == cs[..m - 1];
      assert m * size == (m - 1) * size + size;
    } else {
      assert cs[..0] == [];
    }
  }

  lemma ConcatSingleton(c: string)
    ensures Concat([c]) == c
  {
    assert [c][..0] == [];
  }

  /** In a partition, piece m starts at offset m * size of the content. */
  lemma PartitionPiece(cs: seq<string>, content: string, size: nat, m: nat)
    requires IsPartition(cs, content, size)
    requires m < |cs|
    ensures m * size + |cs[m]| <= |content|
    ensures cs[m] == content[m * size .. m * size + |cs[m]|]
    ensures m == |cs| - 1 ==> m * size + |cs[m]| == |content|
  {
    ConcatLength(cs, size, m);
    assert cs == cs[..m] + [cs[m]] + cs[m + 1..];
    ConcatAppend(cs[..m] + [cs[m]], cs[m + 1..]);
    ConcatAppend(cs[..m], [cs[m]]);
    ConcatSingleton(cs[m]);
    if m == |cs| - 1 {
      assert cs[m + 1..] == [];
    }
  }

  /** A partition has ceil(|content| / size) pieces. */
  lemma PartitionCount(cs: seq<string>, content: string, size: nat)
    requires size > 0
    requires IsPartition(cs, content, size)
    ensures |cs| == CeilDiv(|content|, size)
  {
    var n := |cs|;
    if n == 0 {
      CeilDivLt(|content|, size, 0);
    } else {
      PartitionPiece(cs, content, size, n - 1);
      assert n * size == (n - 1) * size + size;
      CeilDivLt(|content|, size, n - 1);
      CeilDivLt(|content|, size, n);
    }
  }

  /** The windows satisfy the partition predicate. */
  lemma WindowsArePartition(content: string, size: nat)
    requires size > 0
    ensures IsPartition(Windows(content, size), content, size)
  {
    WindowsShape(content, size);
    WindowsReassemble(content, size);
  }

  /** The windows are the one and only partition of the content into pieces of `size`
      characters with a shorter last piece. */
  lemma PartitionUnique(cs: seq<string>, content: string, size: nat)
    requires size > 0
    ensures IsPartition(cs, content, size) <==> cs == Windows(content, size)
  {
    var ws := Windows(content, size);
    WindowsArePartition(content, size);
    if IsPartition(cs, content, size) {
      PartitionCount(cs, content, size);
      WindowCount(content, size);
      forall m | 0 <= m < |cs|
        ensures cs[m] == ws[m]
      {
        PartitionPiece(cs, content, size, m);
        WindowAt(content, size, m);
      }
    }
  }
}
