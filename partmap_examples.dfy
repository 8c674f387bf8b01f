/** The part maps the block store's tests expect, for a part size of 100
    bytes: five ranges of a linear file and five of a circular file whose
    ring is 1000 bytes long (ten parts). Each is derived from the general
    characterisation of `PartMapOf` in two steps: the general lemmas give
    the keys and counts of the map, and a small lemma about a map with those
    keys and counts gives the literal map. */
module PartMapExamples {
  import opened BlockTypes
  import opened PartMap
  import Arith

  /** The options of the circular test file: `MaxSize` 1000, ten parts of 100. */
  const Ring: FileOpts := FileOpts(1000, true, false)

  /** A map whose keys are exactly the members of `keys` has `keys` as its key set. */
  lemma KeysAre(m: map<int, int>, keys: set<int>)
    requires forall j :: j in m <==> j in keys
    ensures m.Keys == keys
  {
    forall j | j in m.Keys
      ensures j in keys
    {
    }
    forall j | j in keys
      ensures j in m.Keys
    {
    }
  }

  // ---------------------------------------------------------------------
  // Linear file.

  /** `(0, 250)`: two whole parts, then half of the third. */
  lemma Map1()
    ensures PartMapOf(100, DefaultOpts, 0, 250) == map[0 := 100, 1 := 100, 2 := 50]
  {
    LinearPartMap(100, DefaultOpts, 0, 250);
    Map1Entries(PartMapOf(100, DefaultOpts, 0, 250));
  }

  lemma Map1Entries(m: map<int, int>)
    requires forall j :: j in m <==> 0 <= j < 3
    requires forall j :: j in m ==> m[j] == Count(100, 0, 250, j)
    ensures m == map[0 := 100, 1 := 100, 2 := 50]
  {
    KeysAre(m, {0, 1, 2});
  }

  /** `(110, 40)`: the range stays inside part 1. */
  lemma Map2()
    ensures PartMapOf(100, DefaultOpts, 110, 40) == map[1 := 40]
  {
    LinearWithinOnePart(100, DefaultOpts, 110, 40);
  }

  /** `(110, 90)`: the range ends exactly at the end of part 1 and does not
      touch part 2. */
  lemma Map3()
    ensures PartMapOf(100, DefaultOpts, 110, 90) == map[1 := 90]
  {
    LinearWithinOnePart(100, DefaultOpts, 110, 90);
  }

  /** `(110, 91)`: one byte more spills into part 2. */
  lemma Map4()
    ensures PartMapOf(100, DefaultOpts, 110, 91) == map[1 := 90, 2 := 1]
  {
    LinearPartMap(100, DefaultOpts, 110, 91);
    Map4Entries(PartMapOf(100, DefaultOpts, 110, 91));
  }

  lemma Map4Entries(m: map<int, int>)
    requires forall j :: j in m <==> 1 <= j < 3
    requires forall j :: j in m ==> m[j] == Count(100, 110, 91, j)
    ensures m == map[1 := 90, 2 := 1]
  {
    KeysAre(m, {1, 2});
  }

  /** `(820, 340)`: a partial first part, two whole parts, a partial last part. */
  lemma Map5()
    ensures PartMapOf(100, DefaultOpts, 820, 340) == map[8 := 80, 9 := 100, 10 := 100, 11 := 60]
  {
    LinearPartMap(100, DefaultOpts, 820, 340);
    Map5Entries(PartMapOf(100, DefaultOpts, 820, 340));
  }

  lemma Map5Entries(m: map<int, int>)
    requires forall j :: j in m <==> 8 <= j < 12
    requires forall j :: j in m ==> m[j] == Count(100, 820, 340, j)
    ensures m == map[8 := 80, 9 := 100, 10 := 100, 11 := 60]
  {
    KeysAre(m, {8, 9, 10, 11});
  }

  // ---------------------------------------------------------------------
  // Circular file with a ring of ten parts.

  /** In a ring of ten parts, the last visit to slot `j` before unrolled part
      `e` (for `0 < e < 20`) is on the second lap for the slots the second
      lap reaches, and on the first lap for the others (`j - 10` stands for
      a slot the range never reached). */
  lemma LastVisitOfTen(j: int, e: int)
    requires 0 <= j < 10 && 0 < e < 20
    ensures LastVisit(10, j, e) == if j < e - 10 then j + 10 else if j < e then j else j - 10
  {
    if j < e - 10 {
      Arith.DivUnique(e - 1 - j, 10, 1);
    } else if j < e {
      Arith.DivUnique(e - 1 - j, 10, 0);
    } else {
      Arith.DivUnique(e - 1 - j, 10, -1);
    }
  }

  /** The slots and counts of a range that starts at ring offset `s` and
      ends before unrolled part `e`, stated without `LastVisit`: a slot is
      present when the first lap reached it from the first part on, or the
      second lap reached it. */
  lemma RingOfTen(m: map<int, int>, s: int, length: int, e: int)
    requires 0 <= s < 1000 && 0 < e < 20
    requires forall j :: j in m <==> 0 <= j < 10 && s / 100 <= LastVisit(10, j, e)
    requires forall j :: j in m ==> m[j] == Count(100, s, length, LastVisit(10, j, e))
    ensures forall j :: j in m <==> 0 <= j < 10 && (j < e - 10 || s / 100 <= j < e)
    ensures forall j :: j in m ==> m[j] == Count(100, s, length, if j < e - 10 then j + 10 else j)
  {
    forall j | 0 <= j < 10
      ensures LastVisit(10, j, e) == if j < e - 10 then j + 10 else if j < e then j else j - 10
    {
      LastVisitOfTen(j, e);
    }
    Arith.MulLeIffLeDiv(10, 100, s);
    Arith.MulLeIffLeDiv(0, 100, s);
  }

  /** The part map of a range of the test's ring that starts inside the ring
      and ends before the end of the second lap. */
  lemma RingMap(offset: int, length: int)
    requires 0 <= offset < 1000 && length > 0 && offset + length <= 1900
    ensures var m, e := PartMapOf(100, Ring, offset, length), EndPart(100, offset, length);
            forall j :: j in m <==> 0 <= j < 10 && (j < e - 10 || offset / 100 <= j < e)
    ensures var m, e := PartMapOf(100, Ring, offset, length), EndPart(100, offset, length);
            forall j :: j in m ==> m[j] == Count(100, offset, length, if j < e - 10 then j + 10 else j)
  {
    CircularPartMap(100, Ring, offset, length);
    Arith.DivUnique(offset, 1000, 0);
    var e := EndPart(100, offset, length);
    Arith.MulLeIffLeDiv(19, 100, offset + length - 1);
    assert 0 < e < 20;
    RingOfTen(PartMapOf(100, Ring, offset, length), offset, length, e);
  }

  /** `(10, 250)`: no wrap-around; the parts are those of a linear file. */
  lemma Map6()
    ensures PartMapOf(100, Ring, 10, 250) == map[0 := 90, 1 := 100, 2 := 60]
  {
    RingMap(10, 250);
    Map6Entries(PartMapOf(100, Ring, 10, 250));
  }

  lemma Map6Entries(m: map<int, int>)
    requires forall j :: j in m <==> 0 <= j < 10 && (j < 3 - 10 || 10 / 100 <= j < 3)
    requires forall j :: j in m ==> m[j] == Count(100, 10, 250, if j < 3 - 10 then j + 10 else j)
    ensures m == map[0 := 90, 1 := 100, 2 := 60]
  {
    assert m.Keys == {0, 1, 2};
  }

  /** `(990, 40)`: the range wraps from the last part to part 0. */
  lemma Map7()
    ensures PartMapOf(100, Ring, 990, 40) == map[9 := 10, 0 := 30]
  {
    RingMap(990, 40);
    Map7Entries(PartMapOf(100, Ring, 990, 40));
  }

  lemma Map7Entries(m: map<int, int>)
    requires forall j :: j in m <==> 0 <= j < 10 && (j < 11 - 10 || 990 / 100 <= j < 11)
    requires forall j :: j in m ==> m[j] == Count(100, 990, 40, if j < 11 - 10 then j + 10 else j)
    ensures m == map[9 := 10, 0 := 30]
  {
    assert m.Keys == {0, 9};
  }

  /** `(990, 130)`: the range wraps and goes on into part 1. */
  lemma Map8()
    ensures PartMapOf(100, Ring, 990, 130) == map[9 := 10, 0 := 100, 1 := 20]
  {
    RingMap(990, 130);
    Map8Entries(PartMapOf(100, Ring, 990, 130));
  }

  lemma Map8Entries(m: map<int, int>)
    requires forall j :: j in m <==> 0 <= j < 10 && (j < 12 - 10 || 990 / 100 <= j < 12)
    requires forall j :: j in m ==> m[j] == Count(100, 990, 130, if j < 12 - 10 then j + 10 else j)
    ensures m == map[9 := 10, 0 := 100, 1 := 20]
  {
    assert m.Keys == {0, 1, 9};
  }

  /** `(5, 1105)`: more than one lap. The first lap gives part 0 95 bytes;
      the second lap assigns part 0 a whole 100 bytes and part 1 10 bytes,
      replacing the first lap's counts instead of adding to them. */
  lemma Map9()
    ensures PartMapOf(100, Ring, 5, 1105)
         == map[0 := 100, 1 := 10, 2 := 100, 3 := 100, 4 := 100, 5 := 100, 6 := 100, 7 := 100, 8 := 100, 9 := 100]
  {
    RingMap(5, 1105);
    Map9Entries(PartMapOf(100, Ring, 5, 1105));
  }

  lemma Map9Entries(m: map<int, int>)
    requires forall j :: j in m <==> 0 <= j < 10 && (j < 12 - 10 || 5 / 100 <= j < 12)
    requires forall j :: j in m ==> m[j] == Count(100, 5, 1105, if j < 12 - 10 then j + 10 else j)
    ensures m == map[0 := 100, 1 := 10, 2 := 100, 3 := 100, 4 := 100, 5 := 100, 6 := 100, 7 := 100, 8 := 100, 9 := 100]
  {
    var want := map[0 := 100, 1 := 10, 2 := 100, 3 := 100, 4 := 100, 5 := 100, 6 := 100, 7 := 100, 8 := 100, 9 := 100];
    KeysAre(m, want.Keys);
    forall j | j in m
      ensures m[j] == want[j]
    {
      if j < 2 {
      } else {
      }
    }
  }

  /** `(2005, 1105)`: an offset two laps further on gives the same map. */
  lemma Map9Congruent()
    ensures PartMapOf(100, Ring, 2005, 1105)
         == map[0 := 100, 1 := 10, 2 := 100, 3 := 100, 4 := 100, 5 := 100, 6 := 100, 7 := 100, 8 := 100, 9 := 100]
  {
    CircularCongruentOffsets(100, Ring, 5, 2, 1105);
    Map9();
  }

  // ---------------------------------------------------------------------
  // The test itself.

  /** The part maps the loop computes for the tested ranges of a linear
      file, with part size 100. */
  method LinearScenario() returns (m1: map<int, int>, m2: map<int, int>, m3: map<int, int>, m4: map<int, int>, m5: map<int, int>)
    ensures m1 == map[0 := 100, 1 := 100, 2 := 50]
    ensures m2 == map[1 := 40]
    ensures m3 == map[1 := 90]
    ensures m4 == map[1 := 90, 2 := 1]
    ensures m5 == map[8 := 80, 9 := 100, 10 := 100, 11 := 60]
  {
    m1 := ComputePartMap(100, DefaultOpts, 0, 250);
    Map1();
    m2 := ComputePartMap(100, DefaultOpts, 110, 40);
    Map2();
    m3 := ComputePartMap(100, DefaultOpts, 110, 90);
    Map3();
    m4 := ComputePartMap(100, DefaultOpts, 110, 91);
    Map4();
    m5 := ComputePartMap(100, DefaultOpts, 820, 340);
    Map5();
  }

  /** The part maps the loop computes for the tested ranges of the circular
      file `Ring`, with part size 100. */
  method CircularScenario() returns (m1: map<int, int>, m2: map<int, int>, m3: map<int, int>, m4: map<int, int>, m5: map<int, int>)
    ensures m1 == map[0 := 90, 1 := 100, 2 := 60]
    ensures m2 == map[9 := 10, 0 := 30]
    ensures m3 == map[9 := 10, 0 := 100, 1 := 20]
    ensures m4 == m5
         == map[0 := 100, 1 := 10, 2 := 100, 3 := 100, 4 := 100, 5 := 100, 6 := 100, 7 := 100, 8 := 100, 9 := 100]
  {
    m1 := ComputePartMap(100, Ring, 10, 250);
    Map6();
    m2 := ComputePartMap(100, Ring, 990, 40);
    Map7();
    m3 := ComputePartMap(100, Ring, 990, 130);
    Map8();
    m4 := ComputePartMap(100, Ring, 5, 1105);
    Map9();
    m5 := ComputePartMap(100, Ring, 2005, 1105);
    Map9Congruent();
  }
}
