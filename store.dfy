/** The block-file store: named files grouped into blocks, each with a
    header (size, timestamps, options, metadata) and content. */
module Store {
  import opened BlockTypes
  import opened Content
  import opened FileMeta

  /** A file is identified by its block and its name within the block. */
  datatype FileKey = FileKey(blockId: string, name: string)

  /** A file's header, as `Stat` and `ListFiles` report it. */
  datatype BlockFile = BlockFile(
    blockId: string, name: string, size: int,
    createdTs: int, modTs: int, opts: FileOpts, meta: Meta)

  /** A file as the store keeps it: its header, the bytes it keeps and the
      stream position up to which bytes were ever written (the cursor). A
      linear file keeps all its bytes; a circular one keeps a ring of
      `maxSize` bytes. */
  datatype FileEntry = FileEntry(file: BlockFile, data: seq<byte>, cursor: nat)

  /** The outcome of an operation that returns only an error. */
  datatype Status = Done | Failed(error: StoreError)

  /** What `ReadAt` returns: the stream position of the first byte read,
      and the bytes. */
  datatype ReadData = ReadData(offset: int, data: seq<byte>)

  /** The size of a file whose cursor is at `cursor`: all of it for a linear
      file, at most `maxSize` for a circular one. */
  function SizeAt(opts: FileOpts, cursor: nat): (size: nat)
    ensures !opts.circular ==> size == cursor
    ensures opts.circular && opts.maxSize >= 0 ==> size <= opts.maxSize && size <= cursor
    ensures opts.circular && opts.maxSize >= 0 ==> (size == cursor || size == opts.maxSize)
  {
    if opts.circular then Max(0, Min(cursor, opts.maxSize)) else cursor
  }

  /** The header of a file stored under `k` in a store with part size
      `partSize` names its key, carries options the store accepts,
      non-zero timestamps, and no `Nil` metadata. */
  predicate HeaderValid(k: FileKey, f: BlockFile, partSize: int)
  {
    && f.blockId == k.blockId && f.name == k.name
    && ValidOpts(f.opts, partSize)
    && f.createdTs > 0 && f.modTs > 0
    && NilFree(f.meta)
  }

  /** What the entry's functions need of its shape: the size does not
      exceed the cursor, a linear file keeps as many bytes as the cursor
      says and a circular file's ring has `maxSize > 0` slots. */
  predicate Shaped(e: FileEntry)
  {
    && 0 <= e.file.size <= e.cursor
    && (if e.file.opts.circular then e.file.opts.maxSize > 0 && |e.data| == e.file.opts.maxSize
        else |e.data| == e.cursor)
  }

  /** The entry keeps `stream`, the bytes ever written to the file: the
      cursor is the stream's length, the size follows from it, and the data
      is the stream itself for a linear file and a ring holding its tail
      for a circular one. */
  ghost predicate Keeps(e: FileEntry, stream: seq<byte>)
  {
    && Shaped(e)
    && e.cursor == |stream|
    && e.file.size == SizeAt(e.file.opts, e.cursor)
    && (if e.file.opts.circular then RingHolds(e.data, stream) else e.data == stream)
  }

  /** A new, empty file. */
  function NewEntry(k: FileKey, opts: FileOpts, now: int): (e: FileEntry)
    requires opts.circular ==> opts.maxSize > 0
    ensures Keeps(e, [])
  {
    var ring := if opts.circular then Zeros(opts.maxSize) else [];
    FileEntry(BlockFile(k.blockId, k.name, 0, now, now, opts, map[]), ring, 0)
  }

  /** The entry after `d` is written at stream position `off` at time `now`. */
  function Written(e: FileEntry, off: nat, d: seq<byte>, now: int): FileEntry
    requires Shaped(e)
  {
    var cursor := Max(e.cursor, off + |d|);
    var data := if e.file.opts.circular then CircularWrite(e.data, e.cursor, off, d)
                else Overwrite(e.data, off, d);
    FileEntry(e.file.(size := SizeAt(e.file.opts, cursor), modTs := now), data, cursor)
  }

  /** A write keeps the entry keeping the stream with the same bytes written. */
  lemma WrittenKeeps(e: FileEntry, stream: seq<byte>, off: nat, d: seq<byte>, now: int)
    requires Keeps(e, stream)
    ensures Keeps(Written(e, off, d, now), Overwrite(stream, off, d))
  {
    if e.file.opts.circular {
      CircularWriteKeeps(e.data, stream, off, d);
    }
  }

  /** The header after a write, against the header before it: a linear
      file grows to cover the write, a circular file's size is the cursor
      capped at `maxSize`; `modTs` becomes `now`, and the creation time,
      options, metadata and names stay. */
  lemma WrittenHeader(e: FileEntry, stream: seq<byte>, off: nat, d: seq<byte>, now: int)
    requires Keeps(e, stream)
    ensures var r := Written(e, off, d, now);
            && (!e.file.opts.circular ==> r.file.size == Max(e.file.size, off + |d|))
            && (e.file.opts.circular ==> r.file.size == Min(e.file.opts.maxSize, Max(e.cursor, off + |d|)))
            && r.file.modTs == now
            && r.file.createdTs == e.file.createdTs && r.file.opts == e.file.opts && r.file.meta == e.file.meta
            && r.file.blockId == e.file.blockId && r.file.name == e.file.name
  {
  }

  /** Repeating a write with the same arguments changes only `modTs`: the
      header is the same apart from the time, and the entry keeps the same
      stream, so it shows the same content. */
  lemma WrittenTwice(e: FileEntry, stream: seq<byte>, off: nat, d: seq<byte>, now: int, later: int)
    requires Keeps(e, stream)
    ensures var once := Written(e, off, d, now);
            var twice := Written(once, off, d, later);
            && twice.file == once.file.(modTs := later)
            && twice.cursor == once.cursor
            && Keeps(twice, Overwrite(stream, off, d))
  {
    var once := Written(e, off, d, now);
    WrittenKeeps(e, stream, off, d, now);
    WrittenKeeps(once, Overwrite(stream, off, d), off, d, later);
    OverwriteTwice(stream, off, d);
  }

  /** The file's content as the entry stores it: the bytes of a linear
      file, the ring read from the oldest byte still held. */
  function Stored(e: FileEntry): (c: seq<byte>)
    requires Shaped(e)
    ensures |c| == e.file.size
  {
    if e.file.opts.circular then RingRead(e.data, e.cursor - e.file.size, e.file.size)
    else e.data[|e.data| - e.file.size..]
  }

  /** The stored content is the last `size` bytes of the stream. */
  lemma StoredIsVisible(e: FileEntry, stream: seq<byte>)
    requires Keeps(e, stream)
    ensures Stored(e) == Visible(stream, e.file.size)
  {
    if e.file.opts.circular {
      RingReadHeld(e.data, stream, e.cursor - e.file.size, e.file.size);
    }
  }

  /** The keys of the files of a block. */
  function KeysIn(files: map<FileKey, FileEntry>, blockId: string): set<FileKey>
  {
    set k | k in files && k.blockId == blockId
  }

  class BlockStore {
    /** The part size, fixed for the lifetime of the store. */
    const partSize: int
    var files: map<FileKey, FileEntry>
    /** The bytes ever written to each file, at their stream positions. */
    ghost var streams: map<FileKey, seq<byte>>

    ghost predicate Valid()
      reads this
    {
      && partSize > 0
      && files.Keys == streams.Keys
      && forall k :: k in files ==> HeaderValid(k, files[k].file, partSize) && Keeps(files[k], streams[k])
    }

    /** What a reader of the file sees: the last `size` bytes written. */
    ghost function VisibleContent(k: FileKey): (c: seq<byte>)
      reads this
      requires Valid() && k in files
      ensures |c| == files[k].file.size
    {
      Visible(streams[k], files[k].file.size)
    }

    constructor (partSize: int)
      requires partSize > 0
      ensures Valid() && this.partSize == partSize && files == map[]
    {
      this.partSize := partSize;
      files := map[];
      streams := map[];
    }

    /** Creates a file holding `data`. Options the store does not accept
        are an invalid argument; an existing name in the block is an error. */
    method MakeFile(blockId: string, name: string, data: seq<byte>, opts: FileOpts, now: int) returns (r: Status)
      requires Valid() && now > 0
      modifies this
      ensures Valid()
      ensures var k := FileKey(blockId, name);
        if !ValidOpts(opts, partSize) then
          r == Failed(InvalidArgument) && files == old(files) && streams == old(streams)
        else if k in old(files) then
          r == Failed(AlreadyExists) && files == old(files) && streams == old(streams)
        else
          && r == Done
          && k in files && files == old(files)[k := files[k]] && streams == old(streams)[k := data]
          && files[k].file == BlockFile(blockId, name, SizeAt(opts, |data|), now, now, opts, map[])
    {
      var k := FileKey(blockId, name);
      if !ValidOpts(opts, partSize) {
        return Failed(InvalidArgument);
      }
      if k in files {
        return Failed(AlreadyExists);
      }
      var e := NewEntry(k, opts, now);
      WrittenKeeps(e, [], 0, data, now);
      assert Overwrite([], 0, data) == data;
      files := files[k := Written(e, 0, data, now)];
      streams := streams[k := data];
      r := Done;
    }

    /** The header of a file, or nothing when there is no such file. */
    method Stat(blockId: string, name: string) returns (f: Option<BlockFile>)
      requires Valid()
      ensures var k := FileKey(blockId, name);
        f == if k in files then Some(files[k].file) else None
    {
      var k := FileKey(blockId, name);
      if k in files {
        f := Some(files[k].file);
      } else {
        f := None;
      }
    }

    /** Removes a file with its content; removing a missing file is an error. */
    method DeleteFile(blockId: string, name: string) returns (r: Status)
      requires Valid()
      modifies this
      ensures Valid()
      ensures var k := FileKey(blockId, name);
        if k in old(files) then r == Done && files == old(files) - {k} && streams == old(streams) - {k}
        else r == Failed(NotFound) && files == old(files) && streams == old(streams)
    {
      var k := FileKey(blockId, name);
      if k !in files {
        return Failed(NotFound);
      }
      files := files - {k};
      streams := streams - {k};
      r := Done;
    }

    /** Removes every file of a block and keeps every other file. */
    method DeleteBlock(blockId: string)
      requires Valid()
      modifies this
      ensures Valid()
      ensures forall k :: k in files <==> k in old(files) && k.blockId != blockId
      ensures forall k :: k in files ==> files[k] == old(files[k]) && streams[k] == old(streams[k])
    {
      var todo := files.Keys;
      while todo != {}
        invariant Valid()
        invariant todo <= old(files.Keys)
        invariant forall k :: k in files <==> k in old(files) && (k in todo || k.blockId != blockId)
        invariant forall k :: k in files ==> files[k] == old(files[k]) && streams[k] == old(streams[k])
        decreases todo
      {
        var k :| k in todo;
        if k.blockId == blockId {
          files := files - {k};
          streams := streams - {k};
        }
        todo := todo - {k};
      }
    }

    /** The headers of the files of a block, each once. */
    method ListFiles(blockId: string) returns (list: seq<BlockFile>)
      requires Valid()
      ensures forall i :: 0 <= i < |list| ==>
                var k := FileKey(blockId, list[i].name); k in files && files[k].file == list[i]
      ensures forall k :: k in files && k.blockId == blockId ==> files[k].file in list
      ensures forall i, j :: 0 <= i < j < |list| ==> list[i].name != list[j].name
      ensures |list| == |KeysIn(files, blockId)|
    {
      list := [];
      var todo := files.Keys;
      ghost var done: set<FileKey> := {};
      while todo != {}
        invariant todo <= files.Keys
        invariant forall k :: k in done <==> k in files && k.blockId == blockId && k !in todo
        invariant forall i :: 0 <= i < |list| ==>
                    var k := FileKey(blockId, list[i].name); k in done && files[k].file == list[i]
        invariant forall k :: k in done ==> files[k].file in list
        invariant forall i, j :: 0 <= i < j < |list| ==> list[i].name != list[j].name
        invariant |list| == |done|
        decreases todo
      {
        var k :| k in todo;
        if k.blockId == blockId {
          assert k !in done;
          list := list + [files[k].file];
          done := done + {k};
        }
        todo := todo - {k};
      }
      assert done == KeysIn(files, blockId);
    }

    /** Applies a metadata update to a file, replacing or merging; a missing
        file is an error. Content and the rest of the header stay. */
    method WriteMeta(blockId: string, name: string, updates: Meta, merge: bool, now: int) returns (r: Status)
      requires Valid() && now > 0
      modifies this
      ensures Valid()
      ensures var k := FileKey(blockId, name);
        if k in old(files) then
          && r == Done
          && k in files && files == old(files)[k := files[k]] && streams == old(streams)
          && files[k] == old(files[k]).(file := old(files[k].file).(meta := files[k].file.meta, modTs := now))
          && IsUpdate(old(files[k].file.meta), updates, merge, files[k].file.meta)
        else
          r == Failed(NotFound) && files == old(files) && streams == old(streams)
    {
      var k := FileKey(blockId, name);
      if k !in files {
        return Failed(NotFound);
      }
      var e := files[k];
      var meta := ApplyUpdate(e.file.meta, updates, merge);
      UpdateNilFree(e.file.meta, updates, merge, meta);
      files := files[k := e.(file := e.file.(meta := meta, modTs := now))];
      r := Done;
    }

    /** Writes `d` at the file's cursor. */
    method AppendData(blockId: string, name: string, d: seq<byte>, now: int) returns (r: Status)
      requires Valid() && now > 0
      modifies this
      ensures Valid()
      ensures var k := FileKey(blockId, name);
        if k in old(files) then
          && r == Done
          && k in files && files == old(files)[k := files[k]] && streams == old(streams)[k := old(streams[k]) + d]
          && files[k].file == old(files[k].file).(size := SizeAt(old(files[k].file.opts), |streams[k]|), modTs := now)
        else
          r == Failed(NotFound) && files == old(files) && streams == old(streams)
    {
      var k := FileKey(blockId, name);
      if k !in files {
        return Failed(NotFound);
      }
      var e := files[k];
      WrittenKeeps(e, streams[k], e.cursor, d, now);
      assert Overwrite(streams[k], e.cursor, d) == streams[k] + d;
      files := files[k := Written(e, e.cursor, d, now)];
      streams := streams[k := streams[k] + d];
      r := Done;
    }

    /** Writes `d` at stream position `off`, zero-filling a gap beyond the
        cursor. A negative offset is an invalid argument. */
    method WriteAt(blockId: string, name: string, off: int, d: seq<byte>, now: int) returns (r: Status)
      requires Valid() && now > 0
      modifies this
      ensures Valid()
      ensures var k := FileKey(blockId, name);
        if off < 0 then
          r == Failed(InvalidArgument) && files == old(files) && streams == old(streams)
        else if k in old(files) then
          && r == Done
          && k in files && files == old(files)[k := files[k]] && streams == old(streams)[k := Overwrite(old(streams[k]), off, d)]
          && files[k].file == old(files[k].file).(size := SizeAt(old(files[k].file.opts), |streams[k]|), modTs := now)
        else
          r == Failed(NotFound) && files == old(files) && streams == old(streams)
    {
      var k := FileKey(blockId, name);
      if off < 0 {
        return Failed(InvalidArgument);
      }
      if k !in files {
        return Failed(NotFound);
      }
      var e := files[k];
      WrittenKeeps(e, streams[k], off, d, now);
      files := files[k := Written(e, off, d, now)];
      streams := streams[k := Overwrite(streams[k], off, d)];
      r := Done;
    }

    /** Reads at most `len` bytes of the content from `off` on: fewer when
        the content ends first, none when `off` is at or past its end.
        A negative offset or length is an invalid argument. */
    method ReadAt(blockId: string, name: string, off: int, len: int) returns (r: Result<ReadData>)
      requires Valid()
      ensures var k := FileKey(blockId, name);
        if off < 0 || len < 0 then r == Err(InvalidArgument)
        else if k !in files then r == Err(NotFound)
        else r == Ok(ReadData(files[k].cursor - files[k].file.size + off, Slice(VisibleContent(k), off, len)))
    {
      var k := FileKey(blockId, name);
      if off < 0 || len < 0 {
        return Err(InvalidArgument);
      }
      if k !in files {
        return Err(NotFound);
      }
      var e := files[k];
      StoredIsVisible(e, streams[k]);
      r := Ok(ReadData(e.cursor - e.file.size + off, Slice(Stored(e), off, len)));
    }

    /** Reads the whole content. */
    method ReadFile(blockId: string, name: string) returns (r: Result<ReadData>)
      requires Valid()
      ensures var k := FileKey(blockId, name);
        if k !in files then r == Err(NotFound)
        else r == Ok(ReadData(files[k].cursor - files[k].file.size, VisibleContent(k)))
    {
      var k := FileKey(blockId, name);
      if k !in files {
        return Err(NotFound);
      }
      var e := files[k];
      r := ReadAt(blockId, name, 0, e.file.size);
      assert Slice(VisibleContent(k), 0, e.file.size) == VisibleContent(k);
    }
  }
}
