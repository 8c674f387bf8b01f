/** Part-map calculation: which parts a byte range of a file touches, and
    how many bytes of the range fall into each.

    The part size `p` is a parameter (the store's `partDataSize`). A range
    is laid out on the file's "unrolled" parts: unrolled part `u` holds the
    bytes `[u*p, (u+1)*p)` of the range's coordinates. For a linear file
    the coordinates are the file offsets and unrolled part `u` is part `u`.
    For a circular file the range starts at `offset % maxSize` and unrolled
    part `u` lands in slot `u % (maxSize / p)` of the ring. Each visit to a
    part assigns its byte count, so a later lap overwrites an earlier one. */
module PartMap {
  import opened BlockTypes
  import Arith

  /** Where the range starts in the coordinates of the unrolled parts. */
  function RangeStart(opts: FileOpts, offset: int): int
    requires opts.circular ==> opts.maxSize > 0
  {
    if opts.circular then offset % opts.maxSize else offset
  }

  /** The number of bytes of `[start, start + length)` inside unrolled part `u`. */
  function Count(p: int, start: int, length: int, u: int): int
  {
    Min(start + length, (u + 1) * p) - Max(start, u * p)
  }

  /** The first unrolled part the range touches. */
  function FirstPart(p: int, start: int): int
    requires p > 0
  {
    start / p
  }

  /** One past the last unrolled part the range touches (the first part when
      the range is empty). */
  function EndPart(p: int, start: int, length: int): (e: int)
    requires p > 0 && start >= 0 && length >= 0
    ensures e >= FirstPart(p, start)
    ensures length > 0 <==> e > FirstPart(p, start)
  {
    if length == 0 then start / p
    else
      Arith.MulLeIffLeDiv(start / p, p, start + length - 1);
      (start + length - 1) / p + 1
  }

  /** The part index that unrolled part `u` is stored in. */
  function Slot(opts: FileOpts, p: int, u: int): int
    requires ValidOpts(opts, p)
  {
    if opts.circular then u % NumParts(opts, p) else u
  }

  /** The map after visiting unrolled parts `FirstPart .. k-1` in order,
      each visit assigning its byte count to its part index. */
  function Visits(p: int, opts: FileOpts, start: int, length: int, k: int): map<int, int>
    requires ValidOpts(opts, p) && start >= 0 && length >= 0
    requires FirstPart(p, start) <= k
    decreases k - FirstPart(p, start)
  {
    if k == FirstPart(p, start) then map[]
    else Visits(p, opts, start, length, k - 1)[Slot(opts, p, k - 1) := Count(p, start, length, k - 1)]
  }

  /** The part map of the byte range `(offset, length)` of a file with
      options `opts`, for part size `p` (`BlockFile.computePartMap`). */
  function PartMapOf(p: int, opts: FileOpts, offset: int, length: int): map<int, int>
    requires ValidOpts(opts, p) && offset >= 0 && length >= 0
  {
    var start := RangeStart(opts, offset);
    Visits(p, opts, start, length, EndPart(p, start, length))
  }

  /** Unrolled part `u` starts at or before `x` exactly when `u` is at most
      the part that holds `x`. */
  lemma PartOfPosition(p: int, u: int, x: int)
    requires p > 0
    ensures u * p <= x <==> u <= x / p
  {
    Arith.MulLeIffLeDiv(u, p, x);
  }

  /** What the loop takes from the first part: the rest of that part, or
      the whole range if it is shorter. */
  lemma FirstTake(p: int, start: int, length: int)
    requires p > 0 && start >= 0 && length > 0
    ensures Min(p - start % p, length) == Count(p, start, length, FirstPart(p, start))
  {
    var f := start / p;
    assert start == f * p + start % p;
    assert (f + 1) * p == f * p + p;
  }

  /** What the loop takes from a later part: a whole part, or what remains
      of the range if that is shorter. */
  lemma LaterTake(p: int, start: int, length: int, u: int)
    requires p > 0 && start >= 0 && length >= 0 && FirstPart(p, start) < u
    requires u * p < start + length
    ensures Min(p, start + length - u * p) == Count(p, start, length, u)
  {
    Arith.MulLeIffLeDiv(u, p, start);
    assert (u + 1) * p == u * p + p;
  }

  /** An unrolled part from the first one on is touched by the range
      exactly when it starts before the range's end. */
  lemma BeforeEnd(p: int, start: int, length: int, u: int)
    requires p > 0 && start >= 0 && length >= 0 && FirstPart(p, start) <= u
    ensures u < EndPart(p, start, length) <==> length > 0 && u * p < start + length
  {
    Arith.MulLeIffLeDiv(u, p, start);
    if length > 0 {
      Arith.MulLeIffLeDiv(u, p, start + length - 1);
    }
  }

  /** One iteration of the loop below: what it takes is the byte count of
      the current unrolled part, and what remains afterwards is what lies
      beyond that part. */
  lemma VisitStep(p: int, start: int, length: int, u: int, pos: int, remaining: int)
    requires p > 0 && start >= 0 && length >= 0
    requires FirstPart(p, start) <= u && remaining > 0
    requires u == FirstPart(p, start) ==> pos == start % p && remaining == length
    requires u > FirstPart(p, start) ==> pos == 0 && remaining == start + length - Min(start + length, u * p)
    ensures Min(p - pos, remaining) == Count(p, start, length, u)
    ensures remaining - Min(p - pos, remaining) == start + length - Min(start + length, (u + 1) * p)
    ensures u < EndPart(p, start, length)
    ensures remaining - Min(p - pos, remaining) == 0 <==> u + 1 == EndPart(p, start, length)
  {
    var f := FirstPart(p, start);
    assert start == f * p + start % p;
    assert (u + 1) * p == u * p + p;
    Arith.MulLeIffLeDiv(u, p, start);
    if u == f {
      FirstTake(p, start, length);
    } else {
      LaterTake(p, start, length, u);
    }
    BeforeEnd(p, start, length, u);
    BeforeEnd(p, start, length, u + 1);
  }

  /** The range's first part index is its first unrolled part's slot: a
      circular range starts inside the ring. */
  lemma FirstSlot(p: int, opts: FileOpts, offset: int)
    requires ValidOpts(opts, p) && offset >= 0
    ensures RangeStart(opts, offset) / p == Slot(opts, p, FirstPart(p, RangeStart(opts, offset)))
  {
    if opts.circular {
      var start, n := RangeStart(opts, offset), NumParts(opts, p);
      Arith.MulLeIffLeDiv(n, p, start);
      Arith.DivUnique(start / p, n, 0);
    }
  }

  /** Advancing the part index by one, wrapping round the ring, gives the
      next unrolled part's slot. */
  lemma NextSlot(p: int, opts: FileOpts, u: int)
    requires ValidOpts(opts, p)
    ensures Slot(opts, p, u + 1)
         == if opts.circular then (Slot(opts, p, u) + 1) % (opts.maxSize / p) else Slot(opts, p, u) + 1
  {
    if opts.circular {
      Arith.ModSucc(u, NumParts(opts, p));
    }
  }

  /** The loop of `computePartMap`: start in the part holding the range's
      first byte, repeatedly take the rest of the current part (or the rest
      of the range, if shorter), assign it to the current part index and
      advance to the next part, wrapping round the ring for a circular file. */
  method ComputePartMap(p: int, opts: FileOpts, offset: int, length: int) returns (m: map<int, int>)
    requires ValidOpts(opts, p) && offset >= 0 && length >= 0
    ensures m == PartMapOf(p, opts, offset, length)
  {
    var start := RangeStart(opts, offset);
    var partIdx := start / p;
    var pos := start % p;
    var remaining := length;
    m := map[];
    ghost var first := FirstPart(p, start);
    ghost var end := EndPart(p, start, length);
    ghost var u := first;
    FirstSlot(p, opts, offset);
    while remaining > 0
      invariant first <= u <= end
      invariant partIdx == Slot(opts, p, u)
      invariant u == first ==> pos == start % p && remaining == length
      invariant u > first ==> pos == 0 && remaining == start + length - Min(start + length, u * p)
      invariant remaining >= 0
      invariant remaining == 0 <==> u == end
      invariant m == Visits(p, opts, start, length, u)
      decreases remaining
    {
      VisitStep(p, start, length, u, pos, remaining);
      var take := Min(p - pos, remaining);
      m := m[partIdx := take];
      remaining := remaining - take;
      NextSlot(p, opts, u);
      partIdx := if opts.circular then (partIdx + 1) % (opts.maxSize / p) else partIdx + 1;
      pos := 0;
      u := u + 1;
    }
  }

  // ---------------------------------------------------------------------
  // Linear files: the parts form a contiguous ascending run.

  /** Visiting the unrolled parts of a linear file up to `k` gives each part
      from the first to `k - 1` its own byte count. */
  lemma {:induction false} LinearVisits(p: int, opts: FileOpts, start: int, length: int, k: int)
    requires ValidOpts(opts, p) && !opts.circular && start >= 0 && length >= 0
    requires FirstPart(p, start) <= k
    ensures forall i :: i in Visits(p, opts, start, length, k) <==> FirstPart(p, start) <= i < k
    ensures forall i :: i in Visits(p, opts, start, length, k) ==>
              Visits(p, opts, start, length, k)[i] == Count(p, start, length, i)
  {
    if k > FirstPart(p, start) {
      LinearVisits(p, opts, start, length, k - 1);
    }
  }

  /** The part map of a linear file holds exactly the parts from
      `offset / p` up to (excluding) `EndPart`, each with the number of bytes
      of the range inside it. */
  lemma LinearPartMap(p: int, opts: FileOpts, offset: int, length: int)
    requires ValidOpts(opts, p) && !opts.circular && offset >= 0 && length >= 0
    ensures forall i :: i in PartMapOf(p, opts, offset, length) <==> offset / p <= i < EndPart(p, offset, length)
    ensures forall i :: i in PartMapOf(p, opts, offset, length) ==>
              PartMapOf(p, opts, offset, length)[i] == Count(p, offset, length, i)
  {
    LinearVisits(p, opts, offset, length, EndPart(p, offset, length));
  }

  /** The first part gets the rest of that part from `offset % p` on, or
      the whole range when it is shorter. */
  lemma LinearFirstPart(p: int, opts: FileOpts, offset: int, length: int)
    requires ValidOpts(opts, p) && !opts.circular && offset >= 0 && length > 0
    ensures offset / p in PartMapOf(p, opts, offset, length)
    ensures PartMapOf(p, opts, offset, length)[offset / p] == Min(p - offset % p, length)
  {
    LinearPartMap(p, opts, offset, length);
    FirstTake(p, offset, length);
  }

  /** Every part strictly between the first and the last is filled whole. */
  lemma LinearInnerParts(p: int, opts: FileOpts, offset: int, length: int, i: int)
    requires ValidOpts(opts, p) && !opts.circular && offset >= 0 && length >= 0
    requires offset / p < i < EndPart(p, offset, length) - 1
    ensures i in PartMapOf(p, opts, offset, length) && PartMapOf(p, opts, offset, length)[i] == p
  {
    LinearPartMap(p, opts, offset, length);
    BeforeEnd(p, offset, length, i + 1);
    LaterTake(p, offset, length, i);
    assert (i + 1) * p == i * p + p;
  }

  /** The last unrolled part of a range that spans more than one part holds
      what is left of the range: between 1 and `p` bytes. */
  lemma LastTake(p: int, start: int, length: int)
    requires p > 0 && start >= 0 && length >= 0
    requires start / p < EndPart(p, start, length) - 1
    ensures var last := EndPart(p, start, length) - 1;
            Count(p, start, length, last) == start + length - last * p
            && 0 < start + length - last * p <= p
  {
    var last := EndPart(p, start, length) - 1;
    BeforeEnd(p, start, length, last);
    BeforeEnd(p, start, length, last + 1);
    LaterTake(p, start, length, last);
    assert (last + 1) * p == last * p + p;
  }

  /** When the range spans more than one part, the last part gets what is
      left of the range: between 1 and `p` bytes. */
  lemma LinearLastPart(p: int, opts: FileOpts, offset: int, length: int)
    requires ValidOpts(opts, p) && !opts.circular && offset >= 0 && length >= 0
    requires offset / p < EndPart(p, offset, length) - 1
    ensures EndPart(p, offset, length) - 1 in PartMapOf(p, opts, offset, length)
    ensures PartMapOf(p, opts, offset, length)[EndPart(p, offset, length) - 1]
         == offset + length - (EndPart(p, offset, length) - 1) * p
    ensures 0 < offset + length - (EndPart(p, offset, length) - 1) * p <= p
  {
    LinearPartMap(p, opts, offset, length);
    LastTake(p, offset, length);
  }

  /** A range that fits in what is left of its first part ends in that part
      and has all its bytes there. */
  lemma OnePartTake(p: int, start: int, length: int)
    requires p > 0 && start >= 0 && length > 0 && start % p + length <= p
    ensures EndPart(p, start, length) == start / p + 1
    ensures Count(p, start, length, start / p) == length
  {
    var f := start / p;
    assert start == f * p + start % p;
    assert (f + 1) * p == f * p + p;
    Arith.DivUnique(start + length - 1, p, f);
  }

  /** A map whose only key is `k` is the one-entry map of `k`. */
  lemma OneEntry(m: map<int, int>, k: int)
    requires forall i :: i in m <==> i == k
    ensures m == map[k := m[k]]
  {
    assert forall i :: i in m.Keys <==> i in {k};
    assert m.Keys == {k};
  }

  /** A range that fits in what is left of its first part touches only that
      part: ending exactly at a part boundary does not spill over. */
  lemma LinearWithinOnePart(p: int, opts: FileOpts, offset: int, length: int)
    requires ValidOpts(opts, p) && !opts.circular && offset >= 0 && length > 0
    requires offset % p + length <= p
    ensures PartMapOf(p, opts, offset, length) == map[offset / p := length]
  {
    var m := PartMapOf(p, opts, offset, length);
    OnePartTake(p, offset, length);
    LinearPartMap(p, opts, offset, length);
    OneEntry(m, offset / p);
  }

  /** The sum of the counts of the parts `lo .. hi-1` that are in `m`. */
  function SumCounts(m: map<int, int>, lo: int, hi: int): int
    decreases hi - lo
  {
    if hi <= lo then 0
    else SumCounts(m, lo, hi - 1) + (if hi - 1 in m then m[hi - 1] else 0)
  }

  /** The number of bytes of `[start, start + length)` that lie before
      position `k * p`. */
  function Covered(p: int, start: int, length: int, k: int): int
  {
    Max(start, Min(start + length, k * p)) - start
  }

  /** The byte count of unrolled part `u` is what the range covers up to the
      end of `u` minus what it covers up to the start of `u`. */
  lemma CoveredStep(p: int, start: int, length: int, u: int)
    requires p > 0 && start >= 0 && length >= 0
    requires start / p <= u < EndPart(p, start, length)
    ensures Count(p, start, length, u) == Covered(p, start, length, u + 1) - Covered(p, start, length, u)
  {
    BeforeEnd(p, start, length, u);
    Arith.MulLeIffLeDiv(u + 1, p, start);
    assert (u + 1) * p == u * p + p;
  }

  /** Nothing of the range lies before its first part, and all of it lies
      before its end part. */
  lemma CoveredEnds(p: int, start: int, length: int)
    requires p > 0 && start >= 0 && length >= 0
    ensures Covered(p, start, length, start / p) == 0
    ensures Covered(p, start, length, EndPart(p, start, length)) == length
  {
    var f, e := start / p, EndPart(p, start, length);
    assert start == f * p + start % p;
    if length > 0 {
      BeforeEnd(p, start, length, e);
    }
  }

  /** The counts of a linear part map's parts before `k` add up to the bytes
      of the range that lie before `k * p`. */
  lemma {:induction false} CountsTelescope(p: int, opts: FileOpts, offset: int, length: int, k: int)
    requires ValidOpts(opts, p) && !opts.circular && offset >= 0 && length >= 0
    requires offset / p <= k <= EndPart(p, offset, length)
    ensures SumCounts(PartMapOf(p, opts, offset, length), offset / p, k) == Covered(p, offset, length, k)
  {
    if k == offset / p {
      CoveredEnds(p, offset, length);
    } else {
      var m := PartMapOf(p, opts, offset, length);
      CountsTelescope(p, opts, offset, length, k - 1);
      LinearPartMap(p, opts, offset, length);
      assert m[k - 1] == Count(p, offset, length, k - 1);
      CoveredStep(p, offset, length, k - 1);
    }
  }

  /** The byte counts of a linear part map add up to the length of the range. */
  lemma LinearSum(p: int, opts: FileOpts, offset: int, length: int)
    requires ValidOpts(opts, p) && !opts.circular && offset >= 0 && length >= 0
    ensures SumCounts(PartMapOf(p, opts, offset, length), offset / p, EndPart(p, offset, length)) == length
  {
    CountsTelescope(p, opts, offset, length, EndPart(p, offset, length));
    CoveredEnds(p, offset, length);
  }

  // ---------------------------------------------------------------------
  // Circular files: indices wrap round the ring and the last lap wins.

  /** The latest unrolled part before `k` whose slot in a ring of `n`
      parts is `j`. */
  function LastVisit(n: int, j: int, k: int): int
    requires n > 0
  {
    k - 1 - (k - 1 - j) % n
  }

  /** `LastVisit` is stored in slot `j`, lies in the last `n` unrolled parts
      before `k`, and no later unrolled part before `k` is stored in `j`. */
  lemma LastVisitIsLatest(n: int, j: int, k: int)
    requires n > 0 && 0 <= j < n
    ensures LastVisit(n, j, k) % n == j
    ensures k - n <= LastVisit(n, j, k) < k
    ensures forall u :: LastVisit(n, j, k) < u < k ==> u % n != j
  {
    var lv, q := LastVisit(n, j, k), (k - 1 - j) / n;
    assert k - 1 - j == q * n + (k - 1 - j) % n;
    assert lv == q * n + j;
    Arith.DivUnique(lv, n, q);
    forall u | lv < u < k
      ensures u % n != j
    {
      if u % n == j {
        var d := u / n;
        assert u == d * n + j;
        if d <= q {
          Arith.MulMono(d, q, n);
        } else {
          Arith.MulMono(q + 1, d, n);
        }
      }
    }
  }

  /** Visiting the unrolled parts of a circular file up to `k` leaves in
      each slot of the ring the count of the last unrolled part stored
      there, and holds no slot outside the ring. */
  lemma {:induction false} CircularVisits(p: int, opts: FileOpts, start: int, length: int, k: int)
    requires ValidOpts(opts, p) && opts.circular && start >= 0 && length >= 0
    requires FirstPart(p, start) <= k
    ensures forall j :: j in Visits(p, opts, start, length, k) <==>
              0 <= j < NumParts(opts, p) && FirstPart(p, start) <= LastVisit(NumParts(opts, p), j, k)
    ensures forall j :: j in Visits(p, opts, start, length, k) ==>
              Visits(p, opts, start, length, k)[j] == Count(p, start, length, LastVisit(NumParts(opts, p), j, k))
  {
    var n := NumParts(opts, p);
    if k > FirstPart(p, start) {
      var u := k - 1;
      CircularVisits(p, opts, start, length, u);
      forall j | 0 <= j < n
        ensures LastVisit(n, j, k) == if j == u % n then u else LastVisit(n, j, u)
      {
        Arith.ModZeroIff(u, j, n);
        if j != u % n {
          Arith.ModPred(u - j, n);
        }
      }
    }
  }

  /** The part map of a circular file: its indices are slots of the ring
      `[0, maxSize / p)`; a slot is present exactly when some unrolled part
      of the range lands in it, and its count is that of the last unrolled
      part to land there (a later lap overwrites an earlier one). */
  lemma CircularPartMap(p: int, opts: FileOpts, offset: int, length: int)
    requires ValidOpts(opts, p) && opts.circular && offset >= 0 && length >= 0
    ensures var m, n := PartMapOf(p, opts, offset, length), NumParts(opts, p);
            forall j :: j in m ==> 0 <= j < n
    ensures var m, n, s := PartMapOf(p, opts, offset, length), NumParts(opts, p), offset % opts.maxSize;
            forall j :: j in m <==> 0 <= j < n && s / p <= LastVisit(n, j, EndPart(p, s, length))
    ensures var m, n, s := PartMapOf(p, opts, offset, length), NumParts(opts, p), offset % opts.maxSize;
            forall j :: j in m ==> m[j] == Count(p, s, length, LastVisit(n, j, EndPart(p, s, length)))
  {
    var s := offset % opts.maxSize;
    CircularVisits(p, opts, s, length, EndPart(p, s, length));
  }

  /** A circular range at least as long as the ring touches every slot. */
  lemma CircularFullLap(p: int, opts: FileOpts, offset: int, length: int)
    requires ValidOpts(opts, p) && opts.circular && offset >= 0 && length >= opts.maxSize
    ensures forall j :: j in PartMapOf(p, opts, offset, length) <==> 0 <= j < NumParts(opts, p)
  {
    var s, n := offset % opts.maxSize, NumParts(opts, p);
    var first, e := s / p, EndPart(p, s, length);
    CircularPartMap(p, opts, offset, length);
    assert s == first * p + s % p;
    assert (first + n - 1) * p == first * p + n * p - p;
    BeforeEnd(p, s, length, first + n - 1);
    forall j | 0 <= j < n
      ensures first <= LastVisit(n, j, e)
    {
      LastVisitIsLatest(n, j, e);
    }
  }

  /** Offsets that differ by whole laps of the ring give the same part map. */
  lemma CircularCongruentOffsets(p: int, opts: FileOpts, offset: int, laps: nat, length: int)
    requires ValidOpts(opts, p) && opts.circular && offset >= 0 && length >= 0
    ensures PartMapOf(p, opts, offset + laps * opts.maxSize, length) == PartMapOf(p, opts, offset, length)
  {
    Arith.ModAddMultiple(offset, laps, opts.maxSize);
  }
}
