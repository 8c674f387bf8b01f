/** The content of a file, as the byte stream its writes define and as the
    bytes the store keeps.

    A file's stream holds every byte ever written, at its absolute position.
    A linear file keeps the whole stream. A circular file keeps a ring of
    `maxSize` bytes in which stream position `x` lives in slot `x % maxSize`;
    only the last `maxSize` positions of the stream are still there. */
module Content {
  import opened BlockTypes
  import Arith

  /** `n` zero bytes: what a part holds where nothing was written. */
  function Zeros(n: nat): (z: seq<byte>)
    ensures |z| == n && forall i :: 0 <= i < n ==> z[i] == 0
  {
    seq(n, _ => 0)
  }

  /** `s` with `d` written at `off`: the bytes of `d` replace those they
      cover, the rest of `s` stays, and a gap between the end of `s` and
      `off` reads as zeros. */
  function Overwrite(s: seq<byte>, off: nat, d: seq<byte>): (r: seq<byte>)
    ensures |r| == Max(|s|, off + |d|)
    ensures forall i :: off <= i < off + |d| ==> r[i] == d[i - off]
    ensures forall i :: 0 <= i < |s| && !(off <= i < off + |d|) ==> r[i] == s[i]
    ensures forall i :: |s| <= i < off ==> r[i] == 0
  {
    if off <= |s| then
      s[..off] + d + (if off + |d| < |s| then s[off + |d|..] else [])
    else
      s + Zeros(off - |s|) + d
  }

  /** Writing nothing inside the stream leaves it as it is. */
  lemma OverwriteNothing(s: seq<byte>, off: nat)
    requires off <= |s|
    ensures Overwrite(s, off, []) == s
  {
  }

  /** Reading back the span just written returns the bytes written. */
  lemma ReadBackWrite(s: seq<byte>, off: nat, d: seq<byte>)
    ensures Slice(Overwrite(s, off, d), off, |d|) == d
  {
  }

  /** Writing the same bytes at the same place twice is writing them once:
      a retried write is harmless. */
  lemma OverwriteTwice(s: seq<byte>, off: nat, d: seq<byte>)
    ensures Overwrite(Overwrite(s, off, d), off, d) == Overwrite(s, off, d)
  {
    var once, twice := Overwrite(s, off, d), Overwrite(Overwrite(s, off, d), off, d);
    assert |twice| == |once|;
    forall i | 0 <= i < |once|
      ensures twice[i] == once[i]
    {
    }
  }

  /** A write is its first byte followed by the write of the rest. */
  lemma OverwriteFirstByte(s: seq<byte>, off: nat, d: seq<byte>)
    requires |d| > 0
    ensures Overwrite(s, off, d) == Overwrite(Overwrite(s, off, d[..1]), off + 1, d[1..])
  {
    var r, t := Overwrite(s, off, d), Overwrite(Overwrite(s, off, d[..1]), off + 1, d[1..]);
    assert |r| == |t|;
    forall i | 0 <= i < |r|
      ensures r[i] == t[i]
    {
    }
  }

  /** A write beyond the end of the stream is a write at the end of zeros
      followed by the data. */
  lemma OverwritePastEnd(s: seq<byte>, off: nat, d: seq<byte>)
    requires off > |s|
    ensures Overwrite(s, off, d) == Overwrite(s, |s|, Zeros(off - |s|) + d)
  {
    var r, t := Overwrite(s, off, d), Overwrite(s, |s|, Zeros(off - |s|) + d);
    assert |r| == |t|;
    forall i | 0 <= i < |r|
      ensures r[i] == t[i]
    {
    }
  }

  /** The bytes a reader of a file of `size` bytes sees: the last `size`
      bytes of its stream. */
  function Visible(stream: seq<byte>, size: nat): (v: seq<byte>)
    requires size <= |stream|
    ensures |v| == size
  {
    stream[|stream| - size..]
  }

  /** At most `len` bytes of `c` from `off` on: nothing when `off` is at or
      past the end, fewer than `len` when `c` ends first. */
  function Slice(c: seq<byte>, off: nat, len: nat): (r: seq<byte>)
    ensures |r| == if off >= |c| then 0 else Min(len, |c| - off)
    ensures forall i :: 0 <= i < |r| ==> r[i] == c[off + i]
  {
    if off >= |c| then [] else c[off..Min(off + len, |c|)]
  }

  // ---------------------------------------------------------------------
  // The ring of a circular file.

  /** The first stream position a ring of `n` slots still holds. */
  function WindowStart(cursor: nat, n: nat): nat
  {
    if cursor <= n then 0 else cursor - n
  }

  /** `ring` holds the last `|ring|` positions of `stream`: position `x`
      lives in slot `x % |ring|`. */
  ghost predicate RingHolds(ring: seq<byte>, stream: seq<byte>)
  {
    && |ring| > 0
    && forall x :: WindowStart(|stream|, |ring|) <= x < |stream| ==> ring[x % |ring|] == stream[x]
  }

  /** Writing `d` into the ring from stream position `off` on, one byte at
      a time, each byte into the slot of its position; a later byte in the
      same slot replaces an earlier one. */
  function RingWrite(ring: seq<byte>, off: nat, d: seq<byte>): (r: seq<byte>)
    requires |ring| > 0
    ensures |r| == |ring|
    decreases |d|
  {
    if d == [] then ring
    else RingWrite(ring[off % |ring| := d[0]], off + 1, d[1..])
  }

  /** `len` bytes of the ring from stream position `from` on. */
  function RingRead(ring: seq<byte>, from: nat, len: nat): (r: seq<byte>)
    requires |ring| > 0
    ensures |r| == len
  {
    seq(len, i requires 0 <= i < len => ring[(from + i) % |ring|])
  }

  /** A ring write that starts inside the held window (or writes nothing)
      and not beyond the end of the stream keeps the ring holding the
      stream with the same bytes written into it. */
  lemma {:induction false} RingWriteKeeps(ring: seq<byte>, stream: seq<byte>, off: nat, d: seq<byte>)
    requires RingHolds(ring, stream)
    requires off <= |stream| && (d == [] || WindowStart(|stream|, |ring|) <= off)
    ensures RingHolds(RingWrite(ring, off, d), Overwrite(stream, off, d))
    decreases |d|
  {
    if d == [] {
      OverwriteNothing(stream, off);
    } else {
      var n := |ring|;
      var ring1, stream1 := ring[off % n := d[0]], Overwrite(stream, off, d[..1]);
      forall x | WindowStart(|stream1|, n) <= x < |stream1|
        ensures ring1[x % n] == stream1[x]
      {
        if x != off {
          Arith.DistinctResidues(x, off, n);
        }
      }
      OverwriteFirstByte(stream, off, d);
      RingWriteKeeps(ring1, stream1, off + 1, d[1..]);
    }
  }

  /** A ring holding a stream holds any stream of the same length that
      agrees with it from `from` on, when `from` is not past the window. */
  lemma RingHoldsAgree(ring: seq<byte>, s1: seq<byte>, s2: seq<byte>, from: nat)
    requires RingHolds(ring, s1) && |s1| == |s2|
    requires from <= WindowStart(|s1|, |ring|)
    requires forall x :: from <= x < |s1| ==> s1[x] == s2[x]
    ensures RingHolds(ring, s2)
  {
  }

  /** Where a write of `d` at `off` really starts when `cursor` bytes were
      written before: at the cursor when `off` is beyond it. */
  function PaddedStart(cursor: nat, off: nat): nat
  {
    if off > cursor then cursor else off
  }

  /** The bytes a write of `d` at `off` really writes: zeros for the gap
      beyond the cursor, then `d`. */
  function PaddedData(cursor: nat, off: nat, d: seq<byte>): seq<byte>
  {
    if off > cursor then Zeros(off - cursor) + d else d
  }

  /** A write and its padded form change the stream alike. */
  lemma PaddedWrite(stream: seq<byte>, off: nat, d: seq<byte>)
    ensures PaddedStart(|stream|, off) <= |stream|
    ensures Overwrite(stream, off, d) == Overwrite(stream, PaddedStart(|stream|, off), PaddedData(|stream|, off, d))
  {
    if off > |stream| {
      OverwritePastEnd(stream, off, d);
    }
  }

  /** How many leading bytes of a padded write fall before the window
      starting at `lo` and are dropped. */
  function Skip(lo: nat, start: nat, size: nat): (k: nat)
    ensures k <= size
    ensures k == size || lo <= start + k
    ensures start + k <= Max(lo, start)
  {
    Min(size, Max(0, lo - start))
  }

  /** The ring write a circular file performs for a write of `d` at stream
      position `off` when `cursor` bytes were written before: a gap beyond
      the cursor is written as zeros, and bytes for positions the ring no
      longer holds are dropped. */
  function CircularWrite(ring: seq<byte>, cursor: nat, off: nat, d: seq<byte>): (r: seq<byte>)
    requires |ring| > 0
    ensures |r| == |ring|
  {
    var start, data := PaddedStart(cursor, off), PaddedData(cursor, off, d);
    var skip := Skip(WindowStart(cursor, |ring|), start, |data|);
    RingWrite(ring, start + skip, data[skip..])
  }

  /** Dropping the leading bytes of a write changes the result only before
      the position the dropped bytes end at. */
  lemma DropLeading(stream: seq<byte>, start: nat, data: seq<byte>, skip: nat)
    requires skip <= |data|
    ensures var s1, s2 := Overwrite(stream, start + skip, data[skip..]), Overwrite(stream, start, data);
            |s1| == |s2| && forall x :: start + skip <= x < |s1| ==> s1[x] == s2[x]
  {
    var tail := data[skip..];
    var s1, s2 := Overwrite(stream, start + skip, tail), Overwrite(stream, start, data);
    forall x | start + skip <= x < |s1|
      ensures s1[x] == s2[x]
    {
      if x < start + skip + |tail| {
        assert tail[x - start - skip] == data[x - start];
      }
    }
  }

  /** A circular write keeps the ring holding the file's stream, with `d`
      written at `off`. */
  lemma CircularWriteKeeps(ring: seq<byte>, stream: seq<byte>, off: nat, d: seq<byte>)
    requires RingHolds(ring, stream)
    ensures RingHolds(CircularWrite(ring, |stream|, off, d), Overwrite(stream, off, d))
  {
    var c, n := |stream|, |ring|;
    var start, data := PaddedStart(c, off), PaddedData(c, off, d);
    PaddedWrite(stream, off, d);
    var lo := WindowStart(c, n);
    var skip := Skip(lo, start, |data|);
    RingWriteKeeps(ring, stream, start + skip, data[skip..]);
    DropLeading(stream, start, data, skip);
    var s1 := Overwrite(stream, start + skip, data[skip..]);
    assert start + skip <= lo || skip == 0;
    RingHoldsAgree(CircularWrite(ring, c, off, d), s1, Overwrite(stream, off, d), Min(start + skip, lo));
  }

  /** Reading the ring over positions it holds reads the stream. */
  lemma RingReadHeld(ring: seq<byte>, stream: seq<byte>, from: nat, len: nat)
    requires RingHolds(ring, stream)
    requires WindowStart(|stream|, |ring|) <= from && from + len <= |stream|
    ensures RingRead(ring, from, len) == stream[from..from + len]
  {
  }
}
