/** How the video uploads cut their payload into APPEND segments. The
    JavaScript uploads slice the base64 text, `data.slice(i * cs, (i + 1) * cs)`
    for `i` below `Math.ceil(data.length / cs)`; the Python upload slices the
    decoded bytes, `data[i:i + cs]` for `i` in `range(0, len(data), cs)`. Both
    use the same segment size `cs`, 5 MiB. */
module Chunking {

  /** 5 MiB (5 * 1024 * 1024), the segment size of every upload. */
  const ChunkSize: nat := 5242880

  /** `Math.ceil(n / ChunkSize)`: the number of segments of an `n`-element
      payload (see `SegmentCountBounds`). */
  function SegmentCount(n: nat): nat
  {
    (n + ChunkSize - 1) / ChunkSize
  }

  function Min(a: int, b: int): int
  {
    if a <= b then a else b
  }

  /** `s.slice(start, end)` / `s[start:end]` for non-negative bounds: both
      are clamped to the length, and an empty slice results when they cross. */
  function Slice<T>(s: seq<T>, start: nat, end: nat): (r: seq<T>)
    ensures start <= end <= |s| ==> r == s[start..end]
    ensures start <= |s| <= end ==> r == s[start..]
  {
    var lo := Min(start, |s|);
    var hi := Min(end, |s|);
    if lo <= hi then s[lo..hi] else []
  }

  /** The segments of `s`, in upload order: segment `k` is the slice from
      `k * ChunkSize` to `(k + 1) * ChunkSize`. */
  function Segments<T>(s: seq<T>): (segs: seq<seq<T>>)
    ensures |segs| == SegmentCount(|s|)
  {
    seq(SegmentCount(|s|), k requires 0 <= k => Slice(s, k * ChunkSize, (k + 1) * ChunkSize))
  }

  function Flatten<T>(segs: seq<seq<T>>): seq<T>
  {
    if segs == [] then [] else Flatten(segs[..|segs| - 1]) + segs[|segs| - 1]
  }

  /** Segment `k` exists exactly when it starts inside the payload: the
      count is the least `q` with `q * ChunkSize >= n`. */
  lemma SegmentCountBounds(n: nat, k: nat)
    ensures k < SegmentCount(n) <==> k * ChunkSize < n
  {
  }

  /** Segment `k` starts at offset `k * ChunkSize` and runs for `ChunkSize`
      elements, or to the end of `s` for the last one: every segment is
      non-empty and only the last may be shorter. */
  lemma SegmentShape<T>(s: seq<T>, k: nat)
    requires k < SegmentCount(|s|)
    ensures k * ChunkSize < |s|
    ensures Segments(s)[k] == s[k * ChunkSize .. Min((k + 1) * ChunkSize, |s|)]
    ensures 0 < |Segments(s)[k]| <= ChunkSize
    ensures k + 1 < SegmentCount(|s|) ==> |Segments(s)[k]| == ChunkSize
  {
    SegmentCountBounds(|s|, k);
    SegmentCountBounds(|s|, k + 1);
  }

  /** Offset `k * ChunkSize` is the start of segment `k`, and the next
      segment starts `ChunkSize` further on. */
  lemma OffsetOfSegment(k: nat)
    ensures (k * ChunkSize) / ChunkSize == k
    ensures (k + 1) * ChunkSize == k * ChunkSize + ChunkSize
  {
  }

  /** Segment `k` is the slice the Python loop takes at offset `k * ChunkSize`. */
  lemma SegmentAt<T>(s: seq<T>, k: nat)
    requires k < SegmentCount(|s|)
    ensures Segments(s)[k] == Slice(s, k * ChunkSize, k * ChunkSize + ChunkSize)
    ensures Segments(s)[k] == Slice(s, k * ChunkSize, (k + 1) * ChunkSize)
    ensures (k * ChunkSize) / ChunkSize == k
  {
    OffsetOfSegment(k);
  }

  lemma {:induction false} FlattenPrefix<T>(s: seq<T>, k: nat)
    requires k <= SegmentCount(|s|)
    ensures Flatten(Segments(s)[..k]) == s[..Min(k * ChunkSize, |s|)]
  {
    if k > 0 {
      var segs := Segments(s)[..k];
      assert segs[..k - 1] == Segments(s)[..k - 1];
      FlattenPrefix(s, k - 1);
      SegmentShape(s, k - 1);
      var m, e := (k - 1) * ChunkSize, Min(k * ChunkSize, |s|);
      assert Flatten(segs) == s[..m] + s[m..e];
      assert s[..e] == s[..m] + s[m..e];
    }
  }

  /** The segments put back together give the payload exactly: nothing is
      lost, repeated or reordered. */
  lemma SegmentsFlatten<T>(s: seq<T>)
    ensures Flatten(Segments(s)) == s
  {
    var n := SegmentCount(|s|);
    FlattenPrefix(s, n);
    assert Segments(s)[..n] == Segments(s);
  }

  /** An empty payload has no segment; a payload of at most one segment size
      has exactly one; twelve MiB make three, the last of two MiB. */
  lemma SegmentCountEdges<T>(s: seq<T>)
    ensures |s| == 0 <==> |Segments(s)| == 0
    ensures 0 < |s| <= ChunkSize ==> |Segments(s)| == 1
    ensures |s| == 12 * 1024 * 1024 ==> |Segments(s)| == 3 && |Segments(s)[2]| == 2 * 1024 * 1024
  {
    if |s| == 12 * 1024 * 1024 {
      SegmentShape(s, 2);
    }
  }

  /** `range(start, stop, step)` for a positive step. */
  function Range(start: nat, stop: nat, step: nat): (r: seq<nat>)
    requires step > 0
    decreases stop - start
  {
    if start >= stop then [] else [start] + Range(start + step, stop, step)
  }

  lemma {:induction false} RangeFrom(n: nat, k: nat)
    requires k <= SegmentCount(n)
    ensures |Range(k * ChunkSize, n, ChunkSize)| == SegmentCount(n) - k
    ensures forall j | 0 <= j < SegmentCount(n) - k :: Range(k * ChunkSize, n, ChunkSize)[j] == (k + j) * ChunkSize
    decreases SegmentCount(n) - k
  {
    SegmentCountBounds(n, k);
    if k < SegmentCount(n) {
      RangeFrom(n, k + 1);
    }
  }

  /** The Python loop visits offsets `0, cs, 2 cs, ...`, one per segment: offset
      number `k` is `k * cs`, its `i // cs` is `k`, and the slice
      `data[i:i + cs]` is segment `k`. The Python and JavaScript uploads cut
      the same segments with the same indices. */
  lemma PythonOffsets<T>(s: seq<T>)
    ensures |Range(0, |s|, ChunkSize)| == |Segments(s)|
    ensures forall k | 0 <= k < |Segments(s)| ::
      Range(0, |s|, ChunkSize)[k] == k * ChunkSize &&
      Range(0, |s|, ChunkSize)[k] / ChunkSize == k &&
      Slice(s, Range(0, |s|, ChunkSize)[k], Range(0, |s|, ChunkSize)[k] + ChunkSize) == Segments(s)[k]
  {
    RangeFrom(|s|, 0);
  }
}
