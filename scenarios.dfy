/** The store's tests as scenarios on a fresh store with part size 50:
    each method performs the test's calls and promises what the test
    checks. */
module StoreScenarios {
  import opened BlockTypes
  import opened Content
  import opened FileMeta
  import opened Store

  /** The part size the tests use. */
  const TestPartSize := 50

  /** The bytes of an ASCII string. */
  function Bytes(s: string): (b: seq<byte>)
    requires forall i :: 0 <= i < |s| ==> s[i] as int < 256
    ensures |b| == |s| && forall i :: 0 <= i < |s| ==> b[i] as int == s[i] as int
  {
    seq(|s|, i requires 0 <= i < |s| => s[i] as int as byte)
  }

  /** The ASCII digit of position `i` in the test text: `'0' + i % 10`. */
  function Digit(i: nat): byte
  {
    (48 + i % 10) as byte
  }

  /** `n` bytes of the repeating digits `0123456789`. */
  method MakeText(n: int) returns (text: seq<byte>)
    ensures |text| == Max(n, 0)
    ensures forall i :: 0 <= i < |text| ==> text[i] == Digit(i)
  {
    text := [];
    var i := 0;
    while i < n
      invariant 0 <= i == |text| <= Max(n, 0)
      invariant forall j :: 0 <= j < i ==> text[j] == Digit(j)
    {
      text := text + [Digit(i)];
      i := i + 1;
    }
  }

  /** Whether some file of `list` has the name `name`. */
  method ContainsFile(list: seq<BlockFile>, name: string) returns (found: bool)
    ensures found <==> exists i :: 0 <= i < |list| && list[i].name == name
  {
    for i := 0 to |list|
      invariant forall j :: 0 <= j < i ==> list[j].name != name
    {
      if list[i].name == name {
        return true;
      }
    }
    return false;
  }

  /** Creating a file with no data and the default options gives an empty
      file with equal non-zero timestamps and no metadata; it can then be
      deleted. */
  method CreateScenario(blockId: string, now: int) returns (made: Status, f: Option<BlockFile>, deleted: Status)
    requires now > 0
    ensures made == Done && deleted == Done
    ensures f.Some? && f.value.blockId == blockId && f.value.name == "testfile" && f.value.size == 0
    ensures f.value.createdTs != 0 && f.value.modTs != 0 && f.value.createdTs == f.value.modTs
    ensures |f.value.meta| == 0
    ensures !f.value.opts.circular && !f.value.opts.ijson && f.value.opts.maxSize == 0
  {
    var store := new BlockStore(TestPartSize);
    made := store.MakeFile(blockId, "testfile", [], DefaultOpts, now);
    f := store.Stat(blockId, "testfile");
    deleted := store.DeleteFile(blockId, "testfile");
  }

  /** A deleted file is no longer found; listing a block gives exactly its
      two files; after deleting the block, listing it gives nothing. */
  method DeleteScenario(blockId: string, now: int)
    returns (gone: Option<BlockFile>, listed: seq<BlockFile>, both: bool, after: seq<BlockFile>)
    requires now > 0
    ensures gone == None
    ensures |listed| == 2 && both
    ensures after == []
  {
    var store := new BlockStore(TestPartSize);
    var made := store.MakeFile(blockId, "testfile", [], DefaultOpts, now);
    var deleted := store.DeleteFile(blockId, "testfile");
    assert store.files.Keys == {};
    gone := store.Stat(blockId, "testfile");
    var k1, k2 := FileKey(blockId, "testfile1"), FileKey(blockId, "testfile2");
    made := store.MakeFile(blockId, "testfile1", [], DefaultOpts, now);
    made := store.MakeFile(blockId, "testfile2", [], DefaultOpts, now);
    assert KeysIn(store.files, blockId) == {k1, k2};
    listed := store.ListFiles(blockId);
    var has1 := ContainsFile(listed, "testfile1");
    var has2 := ContainsFile(listed, "testfile2");
    both := has1 && has2;
    store.DeleteBlock(blockId);
    assert KeysIn(store.files, blockId) == {};
    after := store.ListFiles(blockId);
  }

  /** Replacing the metadata stores the given map; merging then updates
      `a`, adds `c` and `d`, keeps `b` and removes `q`; updating the
      metadata of a missing file fails. */
  method SetMetaScenario(blockId: string, now: int) returns (m1: Meta, m2: Meta, missing: Status)
    requires now > 0
    ensures m1 == map["a" := MetaInt(5), "b" := MetaStr("hello"), "q" := MetaInt(8)]
    ensures m2 == map["a" := MetaInt(6), "b" := MetaStr("hello"), "c" := MetaStr("world"), "d" := MetaInt(7)]
    ensures missing == Failed(NotFound)
  {
    var store := new BlockStore(TestPartSize);
    var made := store.MakeFile(blockId, "testfile", [], DefaultOpts, now);
    var first := map["a" := MetaInt(5), "b" := MetaStr("hello"), "q" := MetaInt(8)];
    var written := store.WriteMeta(blockId, "testfile", first, false, now);
    var f := store.Stat(blockId, "testfile");
    m1 := if f.Some? then f.value.meta else map[];
    ReplaceIsUpdates(map[], first, m1);
    var second := map["a" := MetaInt(6), "c" := MetaStr("world"), "d" := MetaInt(7), "q" := Nil];
    written := store.WriteMeta(blockId, "testfile", second, true, now);
    f := store.Stat(blockId, "testfile");
    m2 := if f.Some? then f.value.meta else map[];
    MergeExample(m1, second, m2);
    missing := store.WriteMeta(blockId, "testfile-notexist", map["a" := MetaInt(6)], true, now);
  }

  /** The merge of the metadata test. */
  lemma MergeExample(m1: Meta, second: Meta, m2: Meta)
    requires m1 == map["a" := MetaInt(5), "b" := MetaStr("hello"), "q" := MetaInt(8)]
    requires second == map["a" := MetaInt(6), "c" := MetaStr("world"), "d" := MetaInt(7), "q" := Nil]
    requires IsUpdate(m1, second, true, m2)
    ensures m2 == map["a" := MetaInt(6), "b" := MetaStr("hello"), "c" := MetaStr("world"), "d" := MetaInt(7)]
  {
    var want := map["a" := MetaInt(6), "b" := MetaStr("hello"), "c" := MetaStr("world"), "d" := MetaInt(7)];
    assert IsUpdate(m1, second, true, want);
    UpdateUnique(m1, second, true, m2, want);
  }

  /** Appending `hello` and then ` world` to an empty file gives sizes 5
      and 11 and the contents `hello` and `hello world`. */
  method AppendScenario(blockId: string, now: int) returns (size1: int, data1: seq<byte>, size2: int, data2: seq<byte>)
    requires now > 0
    ensures size1 == 5 && data1 == Bytes("hello")
    ensures size2 == 11 && data2 == Bytes("hello world")
  {
    var store := new BlockStore(TestPartSize);
    var made := store.MakeFile(blockId, "t2", [], DefaultOpts, now);
    var appended := store.AppendData(blockId, "t2", Bytes("hello"), now);
    size1, data1 := SizeAndData(store, blockId, "t2");
    appended := store.AppendData(blockId, "t2", Bytes(" world"), now);
    size2, data2 := SizeAndData(store, blockId, "t2");
    assert Bytes("hello") + Bytes(" world") == Bytes("hello world");
  }

  /** The size `Stat` reports and the content `ReadFile` returns. */
  method SizeAndData(store: BlockStore, blockId: string, name: string) returns (size: int, data: seq<byte>)
    requires store.Valid() && FileKey(blockId, name) in store.files
    ensures size == store.files[FileKey(blockId, name)].file.size
    ensures data == store.VisibleContent(FileKey(blockId, name))
  {
    var f := store.Stat(blockId, name);
    size := f.value.size;
    var r := store.ReadFile(blockId, name);
    data := r.value.data;
  }

  /** Eighty bytes of text across two parts of 50: the size is 80, the
      content is the text, bytes 42..51 read back, and writing `world` at
      49, across the part boundary, keeps the size and changes only bytes
      49..53. */
  method MultiPartScenario(blockId: string, now: int)
    returns (text: seq<byte>, size1: int, data: seq<byte>, mid: seq<byte>, size2: int, at49: seq<byte>, at48: seq<byte>)
    requires now > 0
    ensures |text| == 80 && forall i :: 0 <= i < 80 ==> text[i] == Digit(i)
    ensures size1 == 80 && data == text
    ensures mid == text[42..52]
    ensures size2 == 80
    ensures at49 == Bytes("world")
    ensures at48 == Bytes("8world4")
  {
    var store := new BlockStore(TestPartSize);
    text := MakeText(80);
    ghost var k := FileKey(blockId, "m2");
    var made := store.MakeFile(blockId, "m2", [], DefaultOpts, now);
    var appended := store.AppendData(blockId, "m2", text, now);
    assert store.streams[k] == text && store.files[k].file.size == 80;
    size1, data := SizeAndData(store, blockId, "m2");
    var r := store.ReadAt(blockId, "m2", 42, 10);
    mid := r.value.data;
    var written := store.WriteAt(blockId, "m2", 49, Bytes("world"), now);
    ghost var after := store.streams[k];
    WorldAt49(text, after);
    assert store.VisibleContent(k) == after;
    var f := store.Stat(blockId, "m2");
    size2 := f.value.size;
    r := store.ReadAt(blockId, "m2", 49, 5);
    at49 := r.value.data;
    r := store.ReadAt(blockId, "m2", 48, 7);
    at48 := r.value.data;
  }

  /** Writing `world` at 49 into the eighty bytes of text keeps the length
      and replaces exactly bytes 49..53. */
  lemma WorldAt49(text: seq<byte>, after: seq<byte>)
    requires |text| == 80 && forall i :: 0 <= i < 80 ==> text[i] == Digit(i)
    requires after == Overwrite(text, 49, Bytes("world"))
    ensures |after| == 80
    ensures Slice(after, 49, 5) == Bytes("world")
    ensures Slice(after, 48, 7) == Bytes("8world4")
  {
    assert after[48] == Digit(48) && after[54] == Digit(54);
    var world, got, want := Bytes("world"), Slice(after, 48, 7), Bytes("8world4");
    forall i | 0 <= i < 7
      ensures got[i] == want[i]
    {
    }
  }
}
