/** The arithmetic behind chunk-addressed file access: how many chunks a
    file has, which bytes chunk i is, and what a sequence of chunk writes
    leaves in a file. The file is a byte string; the filesystem a map from
    paths to byte strings. */
module Chunking {
  import opened Base

  /** n is the ceiling of size / chunkSize: n chunks hold the file, n - 1
      do not, and only the empty file has no chunk. */
  predicate IsCeiling(n: nat, size: nat, chunkSize: nat)
  {
    && size <= n * chunkSize
    && (n == 0 || (n - 1) * chunkSize < size)
    && (n == 0 <==> size == 0)
  }

  /** (filesize + chunk_size - 1) // chunk_size; Python's // and Dafny's /
      agree here because both operands are non-negative. */
  function ChunkCount(size: nat, chunkSize: nat): (n: nat)
    requires chunkSize > 0
    ensures IsCeiling(n, size, chunkSize)
  {
    var q := (size + chunkSize - 1) / chunkSize;
    var r := (size + chunkSize - 1) % chunkSize;
    assert size + chunkSize - 1 == q * chunkSize + r && 0 <= r < chunkSize;
    assert (q - 1) * chunkSize == q * chunkSize - chunkSize;
    assert size > 0 ==> q * chunkSize > 0;
    q
  }

  /** The offset of chunk i, i * chunkSize, counted up chunk by chunk. */
  function ChunkStart(i: nat, chunkSize: nat): nat
  {
    if i == 0 then 0 else ChunkStart(i - 1, chunkSize) + chunkSize
  }

  lemma {:induction false} ChunkStartIsProduct(i: nat, chunkSize: nat)
    ensures ChunkStart(i, chunkSize) == i * chunkSize
  {
    if i > 0 {
      ChunkStartIsProduct(i - 1, chunkSize);
      MulPred(i, chunkSize);
    }
  }

  /** Chunk i: the bytes from offset i * chunkSize, at most chunkSize of
      them (seek, then read(chunk_size)). */
  function Chunk(f: Bytes, chunkSize: nat, i: nat): (r: Bytes)
    ensures |r| <= chunkSize && |r| <= |f|
  {
    f[Min(ChunkStart(i, chunkSize), |f|)..Min(ChunkStart(i, chunkSize) + chunkSize, |f|)]
  }

  /** A chunk is never longer than the chunk size, is full whenever the file
      extends past its end, and is empty exactly when it starts at or past
      the end of the file. */
  lemma ChunkShape(f: Bytes, chunkSize: nat, i: nat)
    ensures |Chunk(f, chunkSize, i)| <= chunkSize
    ensures (i + 1) * chunkSize <= |f| ==> |Chunk(f, chunkSize, i)| == chunkSize
    ensures Chunk(f, chunkSize, i) == [] <==> chunkSize == 0 || |f| <= i * chunkSize
  {
    ChunkStartIsProduct(i, chunkSize);
    assert (i + 1) * chunkSize == i * chunkSize + chunkSize;
  }

  lemma MulMonotone(a: nat, b: nat, c: nat)
    requires a <= b
    ensures a * c <= b * c
  {
  }

  /** The first k chunks, in index order. */
  function Chunks(f: Bytes, chunkSize: nat, k: nat): (r: seq<Bytes>)
    ensures |r| == k
  {
    if k == 0 then [] else Chunks(f, chunkSize, k - 1) + [Chunk(f, chunkSize, k - 1)]
  }

  lemma AdjacentSlices(f: Bytes, a: nat, b: nat)
    requires a <= b
    ensures f[..Min(a, |f|)] + f[Min(a, |f|)..Min(b, |f|)] == f[..Min(b, |f|)]
  {
  }

  lemma MulPred(k: nat, c: nat)
    requires k > 0
    ensures (k - 1) * c + c == k * c
  {
  }

  /** The bytes before chunk k - 1 followed by chunk k - 1 are the bytes
      before chunk k. */
  lemma ChunkExtendsPrefix(f: Bytes, chunkSize: nat, k: nat, before: Bytes)
    requires k > 0
    requires before == f[..Min((k - 1) * chunkSize, |f|)]
    ensures before + Chunk(f, chunkSize, k - 1) == f[..Min(k * chunkSize, |f|)]
  {
    var a := (k - 1) * chunkSize;
    var b := k * chunkSize;
    MulPred(k, chunkSize);
    ChunkStartIsProduct(k - 1, chunkSize);
    assert Chunk(f, chunkSize, k - 1) == f[Min(a, |f|)..Min(b, |f|)];
    AdjacentSlices(f, a, b);
  }

  /** The first k chunks laid end to end are the first k * chunkSize bytes
      of the file: no gap and no overlap. */
  lemma {:induction false} ChunksPrefix(f: Bytes, chunkSize: nat, k: nat)
    ensures Concat(Chunks(f, chunkSize, k)) == f[..Min(k * chunkSize, |f|)]
  {
    if k > 0 {
      var prev := Chunks(f, chunkSize, k - 1);
      ChunksPrefix(f, chunkSize, k - 1);
      ConcatAppend(prev, Chunk(f, chunkSize, k - 1));
      ChunkExtendsPrefix(f, chunkSize, k, Concat(prev));
    }
  }

  /** Reading every chunk 0 .. chunks-1 gives back exactly the file; every
      chunk is non-empty and all but the last are full. */
  lemma ChunksCover(f: Bytes, chunkSize: nat)
    requires chunkSize > 0
    ensures Concat(Chunks(f, chunkSize, ChunkCount(|f|, chunkSize))) == f
    ensures forall j :: 0 <= j < ChunkCount(|f|, chunkSize) ==> Chunk(f, chunkSize, j) != []
    ensures forall j :: 0 <= j < ChunkCount(|f|, chunkSize) - 1 ==> |Chunk(f, chunkSize, j)| == chunkSize
  {
    var n := ChunkCount(|f|, chunkSize);
    ChunksPrefix(f, chunkSize, n);
    assert Min(n * chunkSize, |f|) == |f|;
    ChunksFilled(f, chunkSize, n);
  }

  lemma ChunksFilled(f: Bytes, chunkSize: nat, n: nat)
    requires chunkSize > 0 && (n > 0 ==> (n - 1) * chunkSize < |f|)
    ensures forall j :: 0 <= j < n ==> Chunk(f, chunkSize, j) != []
    ensures forall j :: 0 <= j < n - 1 ==> |Chunk(f, chunkSize, j)| == chunkSize
  {
    forall j | 0 <= j < n
      ensures Chunk(f, chunkSize, j) != []
      ensures j < n - 1 ==> |Chunk(f, chunkSize, j)| == chunkSize
    {
      ChunkWithinFile(f, chunkSize, n, j);
    }
  }

  /** Every chunk below the count holds at least one byte. */
  lemma ChunkPresent(f: Bytes, chunkSize: nat, j: nat)
    requires chunkSize > 0 && j < ChunkCount(|f|, chunkSize)
    ensures Chunk(f, chunkSize, j) != []
  {
    ChunksCover(f, chunkSize);
  }

  lemma ChunkWithinFile(f: Bytes, chunkSize: nat, n: nat, j: nat)
    requires chunkSize > 0 && j < n && (n - 1) * chunkSize < |f|
    ensures Chunk(f, chunkSize, j) != []
    ensures j < n - 1 ==> |Chunk(f, chunkSize, j)| == chunkSize
  {
    ChunkShape(f, chunkSize, j);
    MulMonotone(j, n - 1, chunkSize);
    if j < n - 1 {
      MulMonotone(j + 1, n - 1, chunkSize);
    }
  }

  // ---------------------------------------------------------------------------
  // What write_chunk does to the filesystem.

  /** The bytes stored at a path; a path that does not exist reads as empty
      once append mode creates it. */
  function Stored(files: map<string, Bytes>, p: string): Bytes
  {
    if p in files then files[p] else []
  }

  /** write_chunk's effect once the open and the seek have succeeded:
      chunk index 0 (or below) opens with 'wb' and replaces the file by the
      data; any later index opens with 'ab', where writes go to the end of
      the file whatever the seek offset, so the data is appended. */
  function AfterWrite(files: map<string, Bytes>, p: string, index: int, data: Bytes): map<string, Bytes>
  {
    files[p := if index > 0 then Stored(files, p) + data else data]
  }

  /** After a write the path exists and ends with the data; index 0 leaves
      only the data, a later index keeps what was stored in front of it, and
      no other path changes. */
  lemma AfterWriteEffect(files: map<string, Bytes>, p: string, index: int, data: Bytes)
    ensures var r := AfterWrite(files, p, index, data);
      && r.Keys == files.Keys + {p}
      && (forall q :: q in files && q != p ==> r[q] == files[q])
      && |data| <= |r[p]| && r[p][|r[p]| - |data|..] == data
      && (index <= 0 ==> r[p] == data)
      && (index > 0 ==> |r[p]| == |Stored(files, p)| + |data| && r[p][..|Stored(files, p)|] == Stored(files, p))
  {
  }

  datatype ChunkWrite = ChunkWrite(index: int, data: Bytes)

  function Payloads(ws: seq<ChunkWrite>): (r: seq<Bytes>)
    ensures |r| == |ws|
  {
    if ws == [] then [] else Payloads(ws[..|ws| - 1]) + [ws[|ws| - 1].data]
  }

  /** The effect of a series of successful writes to one path, in order. */
  function ApplyWrites(files: map<string, Bytes>, p: string, ws: seq<ChunkWrite>): map<string, Bytes>
  {
    if ws == [] then files
    else AfterWrite(ApplyWrites(files, p, ws[..|ws| - 1]), p, ws[|ws| - 1].index, ws[|ws| - 1].data)
  }

  /** One more write on top of a series applies after the series. */
  lemma ApplyWritesStep(files: map<string, Bytes>, p: string, ws: seq<ChunkWrite>, w: ChunkWrite)
    ensures ApplyWrites(files, p, ws + [w]) == AfterWrite(ApplyWrites(files, p, ws), p, w.index, w.data)
  {
    assert (ws + [w])[..|ws|] == ws;
  }

  /** A first write at index 0 followed by writes at positive indices leaves
      the path holding the payloads concatenated, and no other path changed. */
  lemma {:induction false} SequentialWrites(files: map<string, Bytes>, p: string, ws: seq<ChunkWrite>)
    requires |ws| > 0 && ws[0].index <= 0
    requires forall k :: 1 <= k < |ws| ==> ws[k].index > 0
    ensures ApplyWrites(files, p, ws) == files[p := Concat(Payloads(ws))]
    decreases |ws|
  {
    var n := |ws|;
    var init := ws[..n - 1];
    if n == 1 {
      var d := ws[0].data;
      assert init == [] && Payloads(ws) == [] + [d];
      ConcatAppend([], d);
      assert Concat(Payloads(ws)) == d;
      assert ApplyWrites(files, p, init) == files;
      assert ApplyWrites(files, p, ws) == AfterWrite(files, p, ws[0].index, d);
    } else {
      var last := ws[n - 1];
      assert init[0] == ws[0];
      assert forall k :: 1 <= k < |init| ==> init[k].index > 0;
      SequentialWrites(files, p, init);
      var before := Concat(Payloads(init));
      var m := files[p := before];
      assert ApplyWrites(files, p, ws) == AfterWrite(m, p, last.index, last.data);
      assert Stored(m, p) == before;
      assert Payloads(ws) == Payloads(init) + [last.data];
      ConcatAppend(Payloads(init), last.data);
      assert Concat(Payloads(ws)) == before + last.data;
      assert m[p := before + last.data] == files[p := before + last.data];
    }
  }

  /** Writing chunk i of a file, for every i in order, rebuilds the file at
      the destination (one side of the end-to-end content argument). */
  lemma WritingEveryChunkRebuildsFile(files: map<string, Bytes>, p: string, f: Bytes, chunkSize: nat, ws: seq<ChunkWrite>)
    requires chunkSize > 0 && |f| > 0
    requires |ws| == ChunkCount(|f|, chunkSize)
    requires forall k :: 0 <= k < |ws| ==> ws[k] == ChunkWrite(k, Chunk(f, chunkSize, k))
    ensures ApplyWrites(files, p, ws) == files[p := f]
  {
    SequentialWrites(files, p, ws);
    PayloadsOfChunkWrites(f, chunkSize, ws);
    ChunksCover(f, chunkSize);
  }

  lemma {:induction false} PayloadsOfChunkWrites(f: Bytes, chunkSize: nat, ws: seq<ChunkWrite>)
    requires forall k :: 0 <= k < |ws| ==> ws[k] == ChunkWrite(k, Chunk(f, chunkSize, k))
    ensures Payloads(ws) == Chunks(f, chunkSize, |ws|)
    decreases |ws|
  {
    if ws != [] {
      PayloadsOfChunkWrites(f, chunkSize, ws[..|ws| - 1]);
    }
  }

  // ---------------------------------------------------------------------------
  // A positioned write, the reference the method's own comment describes
  // ("seek to position for writing"), for comparison with the append above.

  function Zeros(n: nat): (r: Bytes)
    ensures |r| == n
  {
    seq(n, _ => 0)
  }

  /** Writing data at a byte offset of f: bytes before the offset kept
      (a gap past the end reads as zeros), data placed at the offset, and
      any bytes of f beyond the data kept. */
  function PositionedWrite(f: Bytes, offset: nat, data: Bytes): (r: Bytes)
    ensures |r| == if offset + |data| < |f| then |f| else offset + |data|
    ensures r[offset..offset + |data|] == data
    ensures offset <= |f| ==> r[..offset] == f[..offset]
    ensures offset + |data| < |f| ==> r[offset + |data|..] == f[offset + |data|..]
  {
    var pre := if offset <= |f| then f[..offset] else f + Zeros(offset - |f|);
    var post := if offset + |data| < |f| then f[offset + |data|..] else [];
    assert (pre + data + post)[offset..offset + |data|] == data;
    pre + data + post
  }

  function ApplyPositioned(files: map<string, Bytes>, p: string, chunkSize: nat, ws: seq<ChunkWrite>): map<string, Bytes>
  {
    if ws == [] then files
    else
      var before := ApplyPositioned(files, p, chunkSize, ws[..|ws| - 1]);
      var w := ws[|ws| - 1];
      before[p := if w.index > 0 then PositionedWrite(Stored(before, p), w.index * chunkSize, w.data) else w.data]
  }

  /** When chunks arrive strictly in order, 0, 1, 2, ..., and all but the
      last are full, appending (what write_chunk does) and writing at
      index * chunkSize (what it describes) leave the same file. */
  lemma {:induction false} InOrderAppendIsPositioned(files: map<string, Bytes>, p: string, chunkSize: nat, ws: seq<ChunkWrite>)
    requires forall k :: 0 <= k < |ws| ==> ws[k].index == k
    requires forall k :: 0 <= k < |ws| - 1 ==> |ws[k].data| == chunkSize
    ensures ApplyWrites(files, p, ws) == ApplyPositioned(files, p, chunkSize, ws)
    ensures |ws| > 0 ==> |Stored(ApplyWrites(files, p, ws), p)| == (|ws| - 1) * chunkSize + |ws[|ws| - 1].data|
    decreases |ws|
  {
    var n := |ws|;
    if n == 1 {
      assert ws[..0] == [];
    } else if n > 1 {
      var init := ws[..n - 1];
      assert forall k :: 0 <= k < |init| ==> init[k] == ws[k];
      InOrderAppendIsPositioned(files, p, chunkSize, init);
      assert |init[n - 2].data| == chunkSize;
      MulPred(n - 1, chunkSize);
      InOrderAppendStep(files, p, chunkSize, ws);
    }
  }

  /** One in-order step: a chunk appended right after full chunks lands
      where a positioned write would put it. */
  lemma InOrderAppendStep(files: map<string, Bytes>, p: string, chunkSize: nat, ws: seq<ChunkWrite>)
    requires |ws| > 1 && ws[|ws| - 1].index == |ws| - 1
    requires ApplyWrites(files, p, ws[..|ws| - 1]) == ApplyPositioned(files, p, chunkSize, ws[..|ws| - 1])
    requires |Stored(ApplyWrites(files, p, ws[..|ws| - 1]), p)| == (|ws| - 1) * chunkSize
    ensures ApplyWrites(files, p, ws) == ApplyPositioned(files, p, chunkSize, ws)
    ensures |Stored(ApplyWrites(files, p, ws), p)| == (|ws| - 1) * chunkSize + |ws[|ws| - 1].data|
  {
    var n := |ws|;
    PositionedAtEnd(Stored(ApplyWrites(files, p, ws[..n - 1]), p), (n - 1) * chunkSize, ws[n - 1].data);
  }

  lemma PositionedAtEnd(s: Bytes, offset: nat, data: Bytes)
    requires offset == |s|
    ensures PositionedWrite(s, offset, data) == s + data
  {
  }

  /** The two differ as soon as a chunk is written twice: with append, a
      repeated chunk 1 lands after the first copy instead of over it. */
  lemma RepeatedChunkIsAppendedTwice(files: map<string, Bytes>, p: string)
    ensures var ws := [ChunkWrite(0, [1]), ChunkWrite(1, [2]), ChunkWrite(1, [2])];
      Stored(ApplyWrites(files, p, ws), p) == [1, 2, 2]
      && Stored(ApplyPositioned(files, p, 1, ws), p) == [1, 2]
  {
    RepeatAppended(files, p);
    RepeatOverwritten(files, p);
  }

  lemma RepeatAppended(files: map<string, Bytes>, p: string)
    ensures Stored(ApplyWrites(files, p, [ChunkWrite(0, [1]), ChunkWrite(1, [2]), ChunkWrite(1, [2])]), p) == [1, 2, 2]
  {
    var w0, w1 := ChunkWrite(0, [1]), ChunkWrite(1, [2]);
    assert [] + [w0] == [w0] && [w0] + [w1] == [w0, w1] && [w0, w1] + [w1] == [w0, w1, w1];
    ApplyWritesStep(files, p, [], w0);
    assert Stored(ApplyWrites(files, p, [w0]), p) == [1];
    ApplyWritesStep(files, p, [w0], w1);
    assert Stored(ApplyWrites(files, p, [w0, w1]), p) == [1] + [2] == [1, 2];
    ApplyWritesStep(files, p, [w0, w1], w1);
    assert Stored(ApplyWrites(files, p, [w0, w1, w1]), p) == [1, 2] + [2] == [1, 2, 2];
  }

  lemma RepeatOverwritten(files: map<string, Bytes>, p: string)
    ensures Stored(ApplyPositioned(files, p, 1, [ChunkWrite(0, [1]), ChunkWrite(1, [2]), ChunkWrite(1, [2])]), p) == [1, 2]
  {
    var w0, w1 := ChunkWrite(0, [1]), ChunkWrite(1, [2]);
    assert [] + [w0] == [w0] && [w0] + [w1] == [w0, w1] && [w0, w1] + [w1] == [w0, w1, w1];
    ApplyPositionedStep(files, p, 1, [], w0);
    assert Stored(ApplyPositioned(files, p, 1, [w0]), p) == [1];
    ApplyPositionedStep(files, p, 1, [w0], w1);
    PositionedAtEnd([1], 1, [2]);
    assert Stored(ApplyPositioned(files, p, 1, [w0, w1]), p) == [1] + [2] == [1, 2];
    ApplyPositionedStep(files, p, 1, [w0, w1], w1);
    assert PositionedWrite([1, 2], 1, [2]) == [1, 2];
  }

  lemma ApplyPositionedStep(files: map<string, Bytes>, p: string, chunkSize: nat, ws: seq<ChunkWrite>, w: ChunkWrite)
    ensures var before := ApplyPositioned(files, p, chunkSize, ws);
      ApplyPositioned(files, p, chunkSize, ws + [w]) ==
        before[p := if w.index > 0 then PositionedWrite(Stored(before, p), w.index * chunkSize, w.data) else w.data]
  {
    assert (ws + [w])[..|ws|] == ws;
  }

}
