# Block-file store model

A Dafny model of the block-file store of `pkg/blockstore`. The store keeps
named files, grouped into blocks. Each file has a header: size, creation
and modification timestamps, options (`maxSize`, `circular`, `ijson`) and a
metadata map. Its content is split into fixed-size parts. A circular file
is a ring of `maxSize` bytes that keeps only the most recent bytes written
to it.

The model has three layers.

- **Part map** (`partmap.dfy`, `partmap_examples.dfy`).
  - `computePartMap` is the loop `PartMap.ComputePartMap`. It maps a byte
    range onto the parts it touches, with the byte count of each part.
  - The loop is proved equal to a specification function, `PartMapOf`.
    `PartMapOf` is a fold over the range's "unrolled" parts, and each visit
    assigns its count.
  - Closed forms are proved about that function. Linear files get a
    contiguous run of parts whose counts sum to the length. Circular files
    get ring slots where the last lap wins.
  - The ten tested maps are proved both as lemmas and as the results of the
    loop.
- **Content** (`content.dfy`, `partio.dfy`).
  - Each file has an abstract *stream*: every byte ever written, at its
    position.
  - A write replaces the bytes it covers and zero-fills any gap before it.
  - A linear file keeps the stream itself.
  - A circular file keeps a ring of `maxSize` bytes. Stream position `x`
    lives in slot `x % maxSize`, and the ring holds the last `maxSize`
    positions. Ring writes are proved to keep that true.
  - For a linear file, writing the chunks given by the part map, one part
    at a time, is proved to be the same as writing the whole range at once.
- **Store** (`meta.dfy`, `store.dfy`, `scenarios.dfy`).
  - `Store.BlockStore` is a class holding the map from `(blockId, name)` to
    file entries, plus a ghost map of the streams.
  - Every operation is a method. Its postcondition states the new header,
    the new stream and the error cases.
  - Metadata updates are a loop proved against the predicate
    `FileMeta.IsUpdate`.
  - The test suite's scenarios are methods on a fresh store with part size
    50. Their postconditions are the test's checks.

Timestamps are a `now` parameter with `now > 0`.

## Model

| member | source | states |
|---|---|---|
| PartMap.ComputePartMap | pkg/blockstore/blockstore_test.go:327-357 | the take/assign loop of `computePartMap` returns exactly `PartMapOf`: one visit per unrolled part, each assigning (not adding) its byte count to the part index, wrapping modulo `maxSize / partSize` for a circular file |
| PartMap.LinearPartMap | pkg/blockstore/blockstore_test.go:332-343 | for a linear file the keys are exactly the contiguous run from `offset / partSize` up to the end part, and each part gets the number of bytes of the range inside it |
| PartMap.LinearFirstPart | pkg/blockstore/blockstore_test.go:333-334 | the first part is `offset / partSize` and gets `partSize - offset % partSize` bytes, capped at the length |
| PartMap.LinearInnerParts | pkg/blockstore/blockstore_test.go:342-343 | every part strictly between the first and the last gets a whole `partSize` |
| PartMap.LinearLastPart | pkg/blockstore/blockstore_test.go:342-343 | when the range spans several parts, the last gets the remainder, between 1 and `partSize` bytes |
| PartMap.LinearWithinOnePart | pkg/blockstore/blockstore_test.go:335-339 | a range that fits in the rest of its first part is a one-entry map: ending exactly at a part boundary does not touch the next part |
| PartMap.LinearSum | pkg/blockstore/blockstore_test.go:332-343 | the byte counts of a linear part map add up to the length of the range |
| PartMap.CountsTelescope | pkg/blockstore/blockstore_test.go:332-343 | the counts of the parts before `k` add up to the bytes of the range before part `k` |
| PartMap.LastVisitIsLatest | pkg/blockstore/blockstore_test.go:353-354 | the last visit to ring slot `j` is in that slot, within the last lap, and no later visit lands in `j` |
| PartMap.CircularVisits | pkg/blockstore/blockstore_test.go:345-356 | after visiting the unrolled parts of a circular range up to `k`, each slot holds the count of the last unrolled part stored there, and there are no keys outside the ring |
| PartMap.CircularPartMap | pkg/blockstore/blockstore_test.go:345-356 | circular part-map keys are in `[0, maxSize / partSize)`; a slot is present iff the range reaches it, and its count is that of the last lap to reach it |
| PartMap.CircularFullLap | pkg/blockstore/blockstore_test.go:353-354 | a circular range at least `maxSize` long touches every slot of the ring |
| PartMap.CircularCongruentOffsets | pkg/blockstore/blockstore_test.go:355-356 | offsets that differ by whole laps of the ring give the same part map |
| PartMapExamples.Map1 | pkg/blockstore/blockstore_test.go:333-334 | `(0,250)` gives `{0:100,1:100,2:50}` |
| PartMapExamples.Map2 | pkg/blockstore/blockstore_test.go:335-337 | `(110,40)` gives `{1:40}` |
| PartMapExamples.Map3 | pkg/blockstore/blockstore_test.go:338-339 | `(110,90)` gives `{1:90}` |
| PartMapExamples.Map4 | pkg/blockstore/blockstore_test.go:340-341 | `(110,91)` gives `{1:90,2:1}` |
| PartMapExamples.Map5 | pkg/blockstore/blockstore_test.go:342-343 | `(820,340)` gives `{8:80,9:100,10:100,11:60}` |
| PartMapExamples.RingMap | pkg/blockstore/blockstore_test.go:346-354 | for the test's ring (`maxSize` 1000, ten parts) and a range ending within the second lap, the keys and counts in closed form |
| PartMapExamples.Map6 | pkg/blockstore/blockstore_test.go:346-348 | circular `(10,250)` gives `{0:90,1:100,2:60}` |
| PartMapExamples.Map7 | pkg/blockstore/blockstore_test.go:349-350 | circular `(990,40)` wraps to `{9:10,0:30}` |
| PartMapExamples.Map8 | pkg/blockstore/blockstore_test.go:351-352 | circular `(990,130)` gives `{9:10,0:100,1:20}` |
| PartMapExamples.Map9 | pkg/blockstore/blockstore_test.go:353-354 | circular `(5,1105)` gives part 0 100 bytes, not 95 plus 100, because the second lap overwrites the first: `{0:100,1:10,2..9:100}` |
| PartMapExamples.Map9Congruent | pkg/blockstore/blockstore_test.go:355-356 | circular `(2005,1105)` gives the same map as `(5,1105)` |
| PartMapExamples.LinearScenario | pkg/blockstore/blockstore_test.go:327-343 | the loop returns the five tested linear maps |
| PartMapExamples.CircularScenario | pkg/blockstore/blockstore_test.go:345-356 | the loop returns the five tested circular maps |
| Content.Overwrite | pkg/blockstore/blockstore_test.go:309-312 | a write at `off` gives length `max(old length, off + len)`, the written span holds the data, every byte outside it is unchanged, and a gap past the old end is zeros |
| Content.OverwriteTwice | pkg/blockstore/blockstore_test.go:309 | writing the same bytes at the same offset twice gives the same content as writing them once, so a retried write is harmless |
| Content.ReadBackWrite | pkg/blockstore/blockstore_test.go:309-311 | reading back the span just written returns the data |
| Content.Slice | pkg/blockstore/blockstore_test.go:298-304 | a read returns at most `len` bytes from `off`, fewer at the end of the content, none from or past the end |
| Content.RingWriteKeeps | pkg/blockstore/blockstore_test.go:309 | writing into the ring byte by byte, from inside the held window, keeps the ring holding the stream with the bytes written |
| Content.CircularWriteKeeps | pkg/blockstore/blockstore_test.go:309 | any write to a circular file keeps its ring holding the last `maxSize` bytes of the stream, with the new bytes written |
| Content.RingReadHeld | pkg/blockstore/blockstore_test.go:298-312 | reading the ring over held positions returns those bytes of the stream |
| PartIO.PartWritesFrom | pkg/blockstore/blockstore_test.go:309 | once the chunks before part `u` are written, writing those of parts `u..e-1` writes the range up to part `e` |
| PartIO.PartWritesAreFlat | pkg/blockstore/blockstore_test.go:309-312 | writing a linear range chunk by chunk, part by part, equals writing it at once, also across a part boundary |
| PartIO.ChunksFitParts | pkg/blockstore/blockstore_test.go:309-312 | each chunk has its part's byte count from the part map and lies inside that part |
| FileMeta.ApplyUpdate | pkg/blockstore/blockstore_test.go:175-201 | the loop over the updates meets `IsUpdate`: a replace keeps exactly the non-nil updates; a merge overwrites and adds the given keys, removes the keys mapped to nil and keeps the rest |
| FileMeta.UpdateUnique | pkg/blockstore/blockstore_test.go:175-201 | the metadata an update produces is unique |
| FileMeta.UpdateNilFree | pkg/blockstore/blockstore_test.go:196-201 | an update never stores nil |
| FileMeta.ReplaceIsUpdates | pkg/blockstore/blockstore_test.go:175-187 | replacing with a nil-free map makes the metadata equal to that map |
| FileMeta.MergeNothing | pkg/blockstore/blockstore_test.go:196-201 | merging an empty update changes nothing |
| Store.SizeAt | pkg/blockstore/blockstore_test.go:259-269 | the size of a linear file is its cursor; the size of a circular one is at most `maxSize` and is the cursor or `maxSize` |
| Store.NewEntry | pkg/blockstore/blockstore_test.go:45-79 | a new file keeps the empty stream |
| Store.WrittenHeader | pkg/blockstore/blockstore_test.go:259-311 | after a write, a linear file's size is `max(old size, off + len)` and a circular file's is `min(maxSize, max(cursor, off + len))`; `modTs` is the write's time, and the creation time, options, metadata and names are unchanged |
| Store.WrittenTwice | pkg/blockstore/blockstore_test.go:309-312 | repeating a write with the same arguments changes only `modTs`: same header otherwise, same cursor, same stream and so the same content |
| Store.WrittenKeeps | pkg/blockstore/blockstore_test.go:259-311 | after a write, the entry keeps the stream with the data written, for linear and circular files alike |
| Store.StoredIsVisible | pkg/blockstore/blockstore_test.go:268-312 | the content read from the entry is the last `size` bytes of the stream |
| Store.BlockStore.constructor | pkg/blockstore/blockstore_test.go:16-26 | a new store with part size `partSize` is empty |
| Store.BlockStore.MakeFile | pkg/blockstore/blockstore_test.go:45-79 | creates the file with size from its data, `createdTs == modTs == now`, empty metadata and the given options; an existing name fails with AlreadyExists, unaccepted options with InvalidArgument, and nothing else changes |
| Store.BlockStore.Stat | pkg/blockstore/blockstore_test.go:49-79 | returns the file's header, or nothing (not an error) for a missing file |
| Store.BlockStore.DeleteFile | pkg/blockstore/blockstore_test.go:80-83 | removes exactly that file and its content; a missing file fails with NotFound |
| Store.BlockStore.DeleteBlock | pkg/blockstore/blockstore_test.go:135-147 | removes exactly the files of the block and leaves the others unchanged |
| Store.BlockStore.ListFiles | pkg/blockstore/blockstore_test.go:124-133 | lists each file of the block exactly once, with its header, and nothing else |
| Store.BlockStore.WriteMeta | pkg/blockstore/blockstore_test.go:175-206 | replaces or merges the metadata per `IsUpdate` and sets `modTs`; content and the rest of the header stay; a missing file fails with NotFound and changes nothing |
| Store.BlockStore.AppendData | pkg/blockstore/blockstore_test.go:259-272 | appends the data to the stream, so the size becomes the total written (capped at `maxSize` for a circular file); a missing file fails with NotFound |
| Store.BlockStore.WriteAt | pkg/blockstore/blockstore_test.go:309-312 | writes the data over the stream at the offset and sets the size; a negative offset fails with InvalidArgument, a missing file with NotFound |
| Store.BlockStore.ReadAt | pkg/blockstore/blockstore_test.go:236-245 | returns at most `len` bytes of the content from `off`; negative arguments fail with InvalidArgument, a missing file with NotFound |
| Store.BlockStore.ReadFile | pkg/blockstore/blockstore_test.go:225-234 | returns the whole content |
| StoreScenarios.MakeText | pkg/blockstore/blockstore_test.go:275-281 | `makeText(n)` is `n` bytes whose byte `i` is `'0' + i % 10` (nothing for `n <= 0`) |
| StoreScenarios.ContainsFile | pkg/blockstore/blockstore_test.go:86-93 | true exactly when some file in the list has the name |
| StoreScenarios.CreateScenario | pkg/blockstore/blockstore_test.go:38-84 | a new file has its block and name, size 0, equal non-zero timestamps, no metadata and empty options, and can be deleted |
| StoreScenarios.DeleteScenario | pkg/blockstore/blockstore_test.go:95-148 | `Stat` after delete is nothing; listing gives the two files; after `DeleteBlock`, listing gives nothing |
| StoreScenarios.SetMetaScenario | pkg/blockstore/blockstore_test.go:161-208 | replace gives `{a:5,b:"hello",q:8}`, the merge gives `{a:6,b:"hello",c:"world",d:7}`, and a missing file fails |
| StoreScenarios.MergeExample | pkg/blockstore/blockstore_test.go:196-207 | the test's merge gives exactly `{a:6,b:"hello",c:"world",d:7}` |
| StoreScenarios.AppendScenario | pkg/blockstore/blockstore_test.go:247-273 | appending "hello" then " world" gives sizes 5 and 11 and contents "hello" and "hello world" |
| StoreScenarios.SizeAndData | pkg/blockstore/blockstore_test.go:210-234 | `Stat` gives the size and `ReadFile` the content |
| StoreScenarios.MultiPartScenario | pkg/blockstore/blockstore_test.go:283-313 | 80 bytes of text give size 80 and the text back; `ReadAt(42,10)` is `text[42:52]`; after `WriteAt(49,"world")` the size stays 80, `ReadAt(49,5)` is "world" and `ReadAt(48,7)` is "8world4" |
| StoreScenarios.WorldAt49 | pkg/blockstore/blockstore_test.go:309-312 | writing "world" at 49 into the text keeps 80 bytes and makes bytes 48..54 read "8world4" |

## Left out

- The durable backend: database setup, part rows and header rows (`InitBlockstore`, `globalDB`, `useTestingDb`). The store is one in-memory map. Only the linear part-by-part write is modelled (`PartIO`).
- The write-back cache, the background flush and its `stopFlush` switch, `clearCache` and `getCacheSize`. These are a performance layer over the backend, with goroutine timing. The cache-size checks of the metadata test are not modelled.
- Per-file locking and concurrency. Every operation is one atomic step.
- Context deadlines, `uuid` block ids and the wall clock. Block ids are parameters. Time is a `now` parameter with `now > 0`, so timestamps are only "non-zero, and equal at creation". The model does not state that `modTs` never decreases, because that depends on the clock.
- `IJson` content interpretation, logging and test reporting. `ijson` is carried in the options and has no effect.
- I/O errors from the backend. The model has no `IOError` outcome.
- A circular file splitting a write into ring parts. The ring is written byte by byte (`Content.RingWrite`). Only linear writes are related to the part map.
- Store.BlockStore.MakeFile: the fourth argument is taken to be the initial data (the tests pass nil). A circular file needs a positive `maxSize` that is a multiple of the part size; otherwise it is rejected with InvalidArgument, not rounded up. A linear file accepts any `maxSize`.
- 64-bit integers: offsets, lengths, sizes, the cursor and millisecond timestamps are `int64` in the program but unbounded integers in the model. Overflow and the conversions between `int` and `int64` are not modelled.
- Store.BlockStore.WriteAt: on a circular file, bytes for positions the ring no longer holds (before the last `maxSize` positions) are dropped. A write past the cursor zero-fills the gap, for both kinds of file. `WriteAt` and `AppendData` offsets are stream positions (the cursor).
- Store.BlockStore.ReadAt: offsets are relative to the oldest byte still held, so that they agree with `size`. The first value returned is taken to be the stream position of the first byte read. A missing file is NotFound, not an empty result.
- Store.BlockStore.DeleteFile: deleting a missing file fails with NotFound.
- A `maxSize` limit on linear files is not enforced, because the tests do not exercise it.
