/** Writing a linear file part by part: the part map of a write splits its
    bytes into one chunk per part, and writing the chunks in order has the
    same effect as writing the whole range at once. */
module PartIO {
  import opened BlockTypes
  import opened PartMap
  import opened Content
  import Arith

  /** `Covered` grows with `k` and stays within `[0, length]`. */
  lemma CoveredOrder(p: int, start: int, length: int, k1: int, k2: int)
    requires p > 0 && start >= 0 && length >= 0 && k1 <= k2
    ensures 0 <= Covered(p, start, length, k1) <= Covered(p, start, length, k2) <= length
  {
    Arith.MulMono(k1, k2, p);
  }

  /** The chunk of `d`, written at `off`, that lands in unrolled part `u`:
      the bytes of the range between the starts of parts `u` and `u + 1`. */
  function Chunk(p: int, off: nat, d: seq<byte>, u: int): (c: seq<byte>)
    requires p > 0
  {
    CoveredOrder(p, off, |d|, u, u + 1);
    d[Covered(p, off, |d|, u)..Covered(p, off, |d|, u + 1)]
  }

  /** The bytes of `d`, written at `off`, that land before unrolled part `k`. */
  function Before(p: int, off: nat, d: seq<byte>, k: int): (b: seq<byte>)
    requires p > 0
    ensures |b| == Covered(p, off, |d|, k)
  {
    CoveredOrder(p, off, |d|, k, k);
    d[..Covered(p, off, |d|, k)]
  }

  /** Writes the chunks of parts `u .. e-1` into `s`, in order, each at its
      own position. */
  function PartWrites(s: seq<byte>, p: int, off: nat, d: seq<byte>, u: int, e: int): seq<byte>
    requires p > 0
    decreases e - u
  {
    if u >= e then s
    else PartWrites(Overwrite(s, off + Covered(p, off, |d|, u), Chunk(p, off, d, u)), p, off, d, u + 1, e)
  }

  /** Writing the first `i` bytes of `d` and then the bytes `i .. j-1` right
      after them writes the first `j` bytes. */
  lemma OverwriteJoin(s: seq<byte>, off: nat, d: seq<byte>, i: int, j: int)
    requires 0 <= i <= j <= |d|
    ensures Overwrite(Overwrite(s, off, d[..i]), off + i, d[i..j]) == Overwrite(s, off, d[..j])
  {
    var r, t := Overwrite(Overwrite(s, off, d[..i]), off + i, d[i..j]), Overwrite(s, off, d[..j]);
    assert |r| == |t|;
    forall x | 0 <= x < |r|
      ensures r[x] == t[x]
    {
      if off + i <= x < off + j {
        assert d[i..j][x - off - i] == d[..j][x - off];
      } else if off <= x < off + i {
        assert d[..i][x - off] == d[..j][x - off];
      }
    }
  }

  /** Once the chunks before part `u` are written, writing the chunks of
      parts `u .. e-1` writes the range up to the start of part `e`. */
  lemma {:induction false} PartWritesFrom(s: seq<byte>, p: int, off: nat, d: seq<byte>, u: int, e: int)
    requires p > 0 && u <= e
    ensures PartWrites(Overwrite(s, off, Before(p, off, d, u)), p, off, d, u, e)
         == Overwrite(s, off, Before(p, off, d, e))
    decreases e - u
  {
    CoveredOrder(p, off, |d|, u, e);
    if u < e {
      var a, b := Covered(p, off, |d|, u), Covered(p, off, |d|, u + 1);
      CoveredOrder(p, off, |d|, u, u + 1);
      OverwriteJoin(s, off, d, a, b);
      PartWritesFrom(s, p, off, d, u + 1, e);
    }
  }

  /** Writing a non-empty range chunk by chunk, from its first part to its
      last, is writing it at once. */
  lemma PartWritesAreFlat(s: seq<byte>, p: int, off: nat, d: seq<byte>)
    requires p > 0 && |d| > 0
    ensures PartWrites(s, p, off, d, off / p, EndPart(p, off, |d|)) == Overwrite(s, off, d)
  {
    var f, e := off / p, EndPart(p, off, |d|);
    CoveredEnds(p, off, |d|);
    var b := Covered(p, off, |d|, f + 1);
    CoveredOrder(p, off, |d|, f, f + 1);
    assert Chunk(p, off, d, f) == d[..b];
    PartWritesFrom(s, p, off, d, f + 1, e);
    assert d[..|d|] == d;
  }

  /** For a linear file, the chunk of each part in the part map has the
      part's byte count and lies inside that part. */
  lemma ChunksFitParts(p: int, opts: FileOpts, off: nat, d: seq<byte>, u: int)
    requires ValidOpts(opts, p) && !opts.circular
    requires u in PartMapOf(p, opts, off, |d|)
    ensures |Chunk(p, off, d, u)| == PartMapOf(p, opts, off, |d|)[u]
    ensures u * p <= off + Covered(p, off, |d|, u)
    ensures off + Covered(p, off, |d|, u + 1) <= (u + 1) * p
  {
    LinearPartMap(p, opts, off, |d|);
    CoveredStep(p, off, |d|, u);
    BeforeEnd(p, off, |d|, u);
    Arith.MulLeIffLeDiv(u + 1, p, off);
  }
}
