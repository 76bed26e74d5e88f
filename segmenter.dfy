/** Cutting the input into one segment per worker: `split_input` divides the
    view into `chunks` pieces of equal size and moves every cut forward to the
    next line start, so that no line is split between two workers. */
module Segmenter {
  import opened Bytes

  /** One more than the largest `std::size_t`. */
  const SIZE_T_LIMIT: int := 0x1_0000_0000_0000_0000

  /** `(data.size() + chunks - 1) / chunks`: the nominal size of a segment,
      rounded up. */
  function SegmentSize(n: nat, chunks: nat): nat
    requires chunks >= 1
  {
    (n + chunks - 1) / chunks
  }

  function MinNat(a: nat, b: nat): nat { if a <= b then a else b }

  /** `s.substr(pos, count)`: `pos` may not exceed the size (the call throws
      otherwise) and `count` is cut down to the bytes that are left. */
  function Substr(s: seq<Byte>, pos: nat, count: nat): (r: seq<Byte>)
    requires pos <= |s|
    ensures r <= s[pos..]
    ensures |r| <= count
    ensures |r| < count ==> pos + |r| == |s|
  {
    s[pos..pos + MinNat(count, |s| - pos)]
  }

  /** `a - b` in `size_t` arithmetic, which wraps around. */
  function SizeDiff(a: nat, b: nat): nat
  {
    (a - b) % SIZE_T_LIMIT
  }

  // ---------------------------------------------------------------------------
  // `split_input` as written

  /** Round `i` of the loop reads `data[start - 1]` (for `i > 0`) and
      `data[end - 1]`, where `start = i * size` and `end = start + size`. */
  predicate ReadsInBoundsAt(n: nat, chunks: nat, i: nat)
    requires chunks >= 1
  {
    var start := i * SegmentSize(n, chunks);
    var end := start + SegmentSize(n, chunks);
    (i > 0 ==> 0 <= start - 1 < n) && 0 <= end - 1 < n
  }

  /** Every read of every round stays inside the view. */
  predicate ReadsInBounds(n: nat, chunks: nat)
    requires chunks >= 1
  {
    forall i :: 0 <= i < chunks ==> ReadsInBoundsAt(n, chunks, i)
  }

  /** The start of segment `i`: the nominal start, moved past the next newline
      when it does not already follow one. `find` returning `npos` makes it
      `npos + 1`, that is 0. Either way it is a cut point: no line is split. */
  function StartAt(data: seq<Byte>, chunks: nat, i: nat): (r: nat)
    requires chunks >= 1 && ReadsInBoundsAt(|data|, chunks, i)
    ensures r <= |data|
    ensures CutPoint(data, r)
  {
    var start := i * SegmentSize(|data|, chunks);
    if i > 0 && data[start - 1] != '\n' then AfterFound(Find(data, '\n', start)) else start
  }

  /** The end of segment `i`, moved in the same way: the guard `i < chunks` of
      the source always holds, so the last end is moved too. */
  function EndAt(data: seq<Byte>, chunks: nat, i: nat): (r: nat)
    requires chunks >= 1 && ReadsInBoundsAt(|data|, chunks, i)
    ensures r <= |data|
    ensures CutPoint(data, r)
  {
    var end := i * SegmentSize(|data|, chunks) + SegmentSize(|data|, chunks);
    if data[end - 1] != '\n' then AfterFound(Find(data, '\n', end)) else end
  }

  /** Segment `i` as written: `data.substr(start, end - start)`. */
  function SegmentAt(data: seq<Byte>, chunks: nat, i: nat): seq<Byte>
    requires chunks >= 1 && ReadsInBoundsAt(|data|, chunks, i)
  {
    var start := StartAt(data, chunks, i);
    Substr(data, start, SizeDiff(EndAt(data, chunks, i), start))
  }

  /** `split_input(data, chunks)` as written. The reads `data[start - 1]` and
      `data[end - 1]` must stay in the view. */
  method SplitInput(data: seq<Byte>, chunks: nat) returns (segments: seq<seq<Byte>>)
    requires chunks >= 1 && ReadsInBounds(|data|, chunks)
    ensures |segments| == chunks
    ensures forall i :: 0 <= i < chunks ==> segments[i] == SegmentAt(data, chunks, i)
  {
    var segs := new seq<Byte>[chunks];
    var size := (|data| + chunks - 1) / chunks;
    for i := 0 to chunks
      invariant forall j :: 0 <= j < i ==> segs[j] == SegmentAt(data, chunks, j)
    {
      assert ReadsInBoundsAt(|data|, chunks, i);
      var start, end := CutsOfRound(data, chunks, size, i);
      segs[i] := Substr(data, start, SizeDiff(end, start));
    }
    segments := segs[..];
  }

  /** One round of the loop of `split_input`: the nominal start and end of
      segment `i`, each moved past the next newline unless it follows one. */
  method CutsOfRound(data: seq<Byte>, chunks: nat, size: nat, i: nat) returns (start: nat, end: nat)
    requires chunks >= 1 && i < chunks && size == SegmentSize(|data|, chunks)
    requires ReadsInBoundsAt(|data|, chunks, i)
    ensures start == StartAt(data, chunks, i) && end == EndAt(data, chunks, i)
  {
    start := i * size;
    end := start + size;
    if i > 0 && data[start - 1] != '\n' {
      start := AfterFound(Find(data, '\n', start));
    }
    if i < chunks && data[end - 1] != '\n' {
      end := AfterFound(Find(data, '\n', end));
    }
  }

  lemma {:induction false} MulMonotone(a: nat, b: nat, c: nat)
    requires a <= b
    ensures a * c <= b * c
    decreases b - a
  {
    if a < b {
      MulMonotone(a, b - 1, c);
      assert b * c == (b - 1) * c + c;
    }
  }

  lemma NextNominal(i: nat, size: nat)
    ensures i * size + size == (i + 1) * size
  {
  }

  /** A larger multiplier gives a product at least one `d` larger. */
  lemma MulStrict(a: nat, b: nat, d: nat)
    requires a < b
    ensures a * d + d <= b * d
  {
    MulMonotone(a + 1, b, d);
    NextNominal(a, d);
  }

  /** `x = q * d + r` with `0 <= r < d` pins down `q` and `r`. */
  lemma DivUnique(x: nat, d: nat, q: nat, r: nat)
    requires d > 0 && x == q * d + r && r < d
    ensures x / d == q && x % d == r
  {
    var q', r' := x / d, x % d;
    assert x == q' * d + r';
    if q' > q {
      MulStrict(q, q', d);
    } else if q' < q {
      MulStrict(q', q, d);
    }
  }

  /** `chunks` segments of the rounded-up size cover the view, with less than
      one segment to spare. */
  lemma SegmentsCover(n: nat, chunks: nat)
    requires chunks >= 1
    ensures n <= chunks * SegmentSize(n, chunks) < n + chunks
  {
    var size := SegmentSize(n, chunks);
    assert n + chunks - 1 == size * chunks + (n + chunks - 1) % chunks;
  }

  /** The reads of `split_input` stay inside the view exactly when the view is
      not empty and its size is a multiple of `chunks`: otherwise the last
      round reads `data[chunks * size - 1]` beyond the end. */
  lemma ReadsInBoundsIff(n: nat, chunks: nat)
    requires chunks >= 1
    ensures ReadsInBounds(n, chunks) <==> n > 0 && n % chunks == 0
  {
    var size := SegmentSize(n, chunks);
    SegmentsCover(n, chunks);
    if n > 0 && n % chunks == 0 {
      var q := n / chunks;
      DivUnique(n, chunks, q, 0);
      DivUnique(n + chunks - 1, chunks, q, chunks - 1);
      assert size == q && q >= 1;
      forall i | 0 <= i < chunks ensures ReadsInBoundsAt(n, chunks, i) {
        MulMonotone(i, chunks - 1, size);
        assert (chunks - 1) * size + size == n;
        if i > 0 {
          MulMonotone(1, i, size);
        }
      }
    }
    if ReadsInBounds(n, chunks) {
      assert ReadsInBoundsAt(n, chunks, chunks - 1);
      assert (chunks - 1) * size + size == chunks * size;
      DivUnique(n, chunks, size, 0);
    }
  }

  /** A size that is not a multiple of the number of chunks: ten bytes in
      three chunks give segments of four bytes, and the last round reads the
      byte at index 11. */
  lemma OutOfBoundsExample()
    ensures SegmentSize(10, 3) == 4
    ensures !ReadsInBoundsAt(10, 3, 2)
    ensures !ReadsInBounds(10, 3)
  {
    assert !ReadsInBoundsAt(10, 3, 2);
  }

  // ---------------------------------------------------------------------------
  // Line starts and the corrected cut

  /** `q` is a place where the view may be cut without splitting a line: its
      start, its end, or just after a newline. */
  predicate CutPoint(data: seq<Byte>, q: nat)
  {
    q == 0 || q == |data| || (0 < q < |data| && data[q - 1] == '\n')
  }

  /** The first cut point at or after `p`: `p` itself when it is one, past the
      next newline otherwise, and the end of the view when there is no
      newline left (or `p` lies beyond the end). */
  function Align(data: seq<Byte>, p: nat): (q: nat)
    ensures q <= |data| && CutPoint(data, q)
    ensures p <= |data| ==> p <= q
  {
    if p == 0 then 0
    else if p >= |data| then |data|
    else if data[p - 1] == '\n' then p
    else
      match Find(data, '\n', p)
      case Npos => |data|
      case At(k) => k + 1
  }

  /** No cut point is skipped: between `p` and `Align(p)` there is none. */
  lemma AlignIsFirst(data: seq<Byte>, p: nat, j: nat)
    requires p <= j < Align(data, p)
    ensures !CutPoint(data, j)
  {
    FindResult(data, '\n', p);
  }

  /** Cuts stay in order: a later nominal position is never moved before an
      earlier one. */
  lemma AlignMonotone(data: seq<Byte>, p: nat, q: nat)
    requires p <= q
    ensures Align(data, p) <= Align(data, q)
  {
    if Align(data, q) < Align(data, p) {
      if q <= |data| {
        AlignIsFirst(data, p, Align(data, q));
      }
    }
  }

  /** The corrected cut `i`: the nominal position `i * size`, clamped to the
      view and moved to the next line start. */
  function Boundary(data: seq<Byte>, chunks: nat, i: nat): (b: nat)
    requires chunks >= 1
    ensures b <= |data| && CutPoint(data, b)
  {
    Align(data, i * SegmentSize(|data|, chunks))
  }

  lemma BoundaryMonotone(data: seq<Byte>, chunks: nat, i: nat, j: nat)
    requires chunks >= 1 && i <= j
    ensures Boundary(data, chunks, i) <= Boundary(data, chunks, j)
  {
    var size := SegmentSize(|data|, chunks);
    assert i * size <= j * size by {
      assert (j - i) * size >= 0;
    }
    AlignMonotone(data, i * size, j * size);
  }

  /** The first cut is the start of the view and the last one its end. */
  lemma BoundaryEnds(data: seq<Byte>, chunks: nat)
    requires chunks >= 1
    ensures Boundary(data, chunks, 0) == 0
    ensures Boundary(data, chunks, chunks) == |data|
  {
    SegmentsCover(|data|, chunks);
  }

  /** Segment `i` of the corrected split. */
  function Segment(data: seq<Byte>, chunks: nat, i: nat): seq<Byte>
    requires chunks >= 1
  {
    BoundaryMonotone(data, chunks, i, i + 1);
    data[Boundary(data, chunks, i)..Boundary(data, chunks, i + 1)]
  }

  /** `split_input` with the cuts kept inside the view: a nominal position at
      or beyond the end is the end, and a search for a newline that finds none
      also ends at the end of the view. */
  method SplitAligned(data: seq<Byte>, chunks: nat) returns (segments: seq<seq<Byte>>)
    requires chunks >= 1
    ensures |segments| == chunks
    ensures forall i :: 0 <= i < chunks ==> segments[i] == Segment(data, chunks, i)
  {
    var segs := new seq<Byte>[chunks];
    var n := |data|;
    var size := (n + chunks - 1) / chunks;
    for i := 0 to chunks
      invariant forall j :: 0 <= j < i ==> segs[j] == Segment(data, chunks, j)
    {
      var start := NextLineStart(data, i * size);
      var end := NextLineStart(data, i * size + size);
      assert i * size + size == (i + 1) * size;
      BoundaryMonotone(data, chunks, i, i + 1);
      segs[i] := data[start..end];
    }
    segments := segs[..];
  }

  /** A cut point at or after `p` with none between `p` and it is `Align(p)`. */
  lemma FirstCutIsAlign(data: seq<Byte>, p: nat, q: nat)
    requires p <= q <= |data| && CutPoint(data, q)
    requires forall j :: p <= j < q ==> !CutPoint(data, j)
    ensures q == Align(data, p)
  {
    if q < Align(data, p) {
      AlignIsFirst(data, p, q);
      assert false;
    }
  }

  /** The corrected form of the two adjustments of the loop body: clamp the
      position to the view, then scan forward byte by byte until it follows a
      newline or reaches the end. */
  method NextLineStart(data: seq<Byte>, p: nat) returns (q: nat)
    ensures q == Align(data, p)
  {
    if p >= |data| {
      return |data|;
    }
    q := p;
    while 0 < q < |data| && data[q - 1] != '\n'
      invariant p <= q <= |data|
      invariant forall j :: p <= j < q ==> !CutPoint(data, j)
      decreases |data| - q
    {
      q := q + 1;
    }
    FirstCutIsAlign(data, p, q);
  }

  /** With the view ending in a newline, the source's adjustment of a
      nominal position `p` inside the view is `Align`: the search for a
      newline always succeeds, so no `npos + 1` wraps around. */
  lemma AdjustIsAlign(data: seq<Byte>, p: nat)
    requires 0 < p <= |data| && data[|data| - 1] == '\n'
    ensures (if data[p - 1] != '\n' then AfterFound(Find(data, '\n', p)) else p) == Align(data, p)
  {
    if data[p - 1] != '\n' {
      FindSome(data, '\n', p, |data| - 1);
    }
  }

  /** A count that does not wrap cuts exactly the bytes up to `b`. */
  lemma SubstrUpTo(data: seq<Byte>, a: nat, b: nat)
    requires a <= b <= |data| < SIZE_T_LIMIT
    ensures Substr(data, a, SizeDiff(b, a)) == data[a..b]
  {
  }

  lemma StartIsBoundary(data: seq<Byte>, chunks: nat, i: nat)
    requires chunks >= 1 && ReadsInBoundsAt(|data|, chunks, i)
    requires |data| > 0 && data[|data| - 1] == '\n'
    ensures StartAt(data, chunks, i) == Boundary(data, chunks, i)
  {
    if i > 0 {
      AdjustIsAlign(data, i * SegmentSize(|data|, chunks));
    }
  }

  lemma EndIsBoundary(data: seq<Byte>, chunks: nat, i: nat)
    requires chunks >= 1 && ReadsInBoundsAt(|data|, chunks, i)
    requires |data| > 0 && data[|data| - 1] == '\n'
    ensures EndAt(data, chunks, i) == Boundary(data, chunks, i + 1)
  {
    var size := SegmentSize(|data|, chunks);
    AdjustIsAlign(data, i * size + size);
    NextNominal(i, size);
  }

  /** Where the reads stay in the view and the view ends with a newline, the
      source's cuts are the corrected ones, so no `end - start` goes negative
      and the segments tile the view. */
  lemma SplitInputIsAligned(data: seq<Byte>, chunks: nat, i: nat)
    requires chunks >= 1 && i < chunks && ReadsInBounds(|data|, chunks)
    requires |data| > 0 && data[|data| - 1] == '\n' && |data| < SIZE_T_LIMIT
    ensures SegmentAt(data, chunks, i) == Segment(data, chunks, i)
  {
    assert ReadsInBoundsAt(|data|, chunks, i);
    StartIsBoundary(data, chunks, i);
    EndIsBoundary(data, chunks, i);
    BoundaryMonotone(data, chunks, i, i + 1);
    SubstrUpTo(data, Boundary(data, chunks, i), Boundary(data, chunks, i + 1));
  }

  /** A view whose last line has no newline, cut into one chunk: the end of
      the only segment is moved to `npos + 1`, that is 0, and the segment
      comes out empty although the view holds a whole line. */
  lemma UnterminatedTailExample()
    ensures ReadsInBounds(7, 1)
    ensures SegmentAt("x;1.0\ny", 1, 0) == []
    ensures Segment("x;1.0\ny", 1, 0) == "x;1.0\ny"
  {
    var data: seq<Byte> := "x;1.0\ny";
    assert ReadsInBoundsAt(7, 1, 0);
    assert Find(data, '\n', 7) == Npos;
    assert EndAt(data, 1, 0) == 0;
    BoundaryEnds(data, 1);
  }

  /** The same tail cut into one and into two chunks: every read is in
      bounds both times, but with one chunk the only segment is empty, while
      with two the first segment holds the whole line. */
  lemma WorkerCountExample()
    ensures ReadsInBounds(8, 1) && ReadsInBounds(8, 2)
    ensures SegmentAt("x;1.0\nyy", 1, 0) == []
    ensures SegmentAt("x;1.0\nyy", 2, 0) == "x;1.0\n"
    ensures SegmentAt("x;1.0\nyy", 2, 1) == "yy"
  {
    var data: seq<Byte> := "x;1.0\nyy";
    assert ReadsInBoundsAt(8, 1, 0);
    ReadsInBoundsIff(8, 2);
    assert ReadsInBoundsAt(8, 2, 0) && ReadsInBoundsAt(8, 2, 1);
    assert Find(data, '\n', 8) == Npos;
    assert EndAt(data, 1, 0) == 0;
    FindIs(data, '\n', 4, At(5));
    assert EndAt(data, 2, 0) == 6;
    assert StartAt(data, 2, 1) == 6;
    assert EndAt(data, 2, 1) == 0;
    assert data[6..] == "yy";
  }
}
