/** The chunk store: file metadata, chunk reads and writes, the
    missing-chunk inventory and reassembly of numbered chunk artefacts.
    The filesystem is a Disk object whose map from paths to contents the
    operations read and update; SHA-256 is an uninterpreted function. */
module FileHandling {
  import opened Base
  import opened Paths
  import opened Chunking

  type Path = string

  /** FileHandler() without an argument: 1 MiB chunks. */
  const DefaultChunkSize: nat := 1024 * 1024

  datatype FileMetadata = FileMetadata(
    filename: string,
    filesize: nat,
    chunks: nat,
    checksum: string,
    chunkSize: nat,
    encrypted: bool)

  /** The filesystem: the contents of every existing file by path, and the
      paths that cannot be opened for writing (permission errors and the
      like, which the code reports as a failed write). */
  class Disk {
    var files: map<Path, Bytes>
    const readOnly: set<Path>

    constructor (files: map<Path, Bytes>, readOnly: set<Path>)
      ensures this.files == files && this.readOnly == readOnly
    {
      this.files := files;
      this.readOnly := readOnly;
    }
  }

  // ---------------------------------------------------------------------------
  // The missing-chunk inventory looks for "<path>.chunk<i>" next to the file.

  /** The artefact of chunk i sits next to the file: its path extends the
      file's path. */
  function ArtefactPath(path: Path, i: nat): (r: Path)
    ensures |path| < |r| && r[..|path|] == path
  {
    path + ".chunk" + NatToString(i)
  }

  /** Different chunk numbers name different artefacts. */
  lemma ArtefactPathsDistinct(path: Path, i: nat, j: nat)
    requires i != j
    ensures ArtefactPath(path, i) != ArtefactPath(path, j)
  {
    var n := |path| + 6;
    assert ArtefactPath(path, i)[n..] == NatToString(i);
    assert ArtefactPath(path, j)[n..] == NatToString(j);
    if ArtefactPath(path, i) == ArtefactPath(path, j) {
      NatToStringInjective(i, j);
    }
  }

  /** min(chunk_size, getsize(path) - i * chunk_size) when the file exists,
      chunk_size otherwise. For a chunk that starts inside the file (or at
      its end) that is the length of the chunk read_chunk returns; past the
      end of the file it is negative. */
  function ExpectedArtefactSize(files: map<Path, Bytes>, path: Path, chunkSize: nat, i: nat): (r: int)
    ensures path !in files ==> r == chunkSize
    ensures path in files && i * chunkSize <= |files[path]| ==> r == |Chunk(files[path], chunkSize, i)|
    ensures path in files && i * chunkSize > |files[path]| ==> r < 0
  {
    ChunkStartIsProduct(i, chunkSize);
    if path in files then Min(chunkSize, |files[path]| - i * chunkSize) else chunkSize
  }

  predicate ArtefactMissing(files: map<Path, Bytes>, path: Path, chunkSize: nat, i: nat)
  {
    var a := ArtefactPath(path, i);
    a !in files || |files[a]| != ExpectedArtefactSize(files, path, chunkSize, i)
  }

  // ---------------------------------------------------------------------------
  // Reassembly reads "<temp_dir>/chunk<i>".

  /** Artefact i of a reassembly is the file "chunk<i>" in the directory. */
  function ReassemblyPath(dir: Path, i: nat): Path
  {
    Join(dir, "chunk" + NatToString(i))
  }

  /** The artefact's file name is "chunk<i>", whatever the directory. */
  lemma ReassemblyPathNamesChunk(dir: Path, i: nat)
    ensures Basename(ReassemblyPath(dir, i)) == "chunk" + NatToString(i)
  {
    var name := "chunk" + NatToString(i);
    assert forall k :: 0 <= k < |name| ==> name[k] != Sep by {
      forall k | 5 <= k < |name| ensures name[k] != Sep {
        assert name[k] == NatToString(i)[k - 5];
      }
    }
    BasenameOfJoin(dir, name);
  }

  /** Different chunk numbers name different artefacts. */
  lemma ReassemblyPathsDistinct(dir: Path, i: nat, j: nat)
    requires i != j
    ensures ReassemblyPath(dir, i) != ReassemblyPath(dir, j)
  {
    if ReassemblyPath(dir, i) == ReassemblyPath(dir, j) {
      var a, b := "chunk" + NatToString(i), "chunk" + NatToString(j);
      JoinInjective(dir, a, b);
      assert a[5..] == NatToString(i) && b[5..] == NatToString(j);
      NatToStringInjective(i, j);
    }
  }

  /** The first artefact index in [j, n) that is absent, or n when all are
      present. */
  function FirstAbsentArtefact(files: map<Path, Bytes>, dir: Path, j: nat, n: nat): (k: nat)
    requires j <= n
    ensures j <= k <= n
    ensures forall i :: j <= i < k ==> ReassemblyPath(dir, i) in files
    ensures k < n ==> ReassemblyPath(dir, k) !in files
    decreases n - j
  {
    if j == n then n
    else if ReassemblyPath(dir, j) !in files then j
    else FirstAbsentArtefact(files, dir, j + 1, n)
  }

  /** The contents of artefacts 0 .. k-1, in order. */
  function ArtefactsConcat(files: map<Path, Bytes>, dir: Path, k: nat): Bytes
  {
    if k == 0 then [] else ArtefactsConcat(files, dir, k - 1) + Stored(files, ReassemblyPath(dir, k - 1))
  }

  /** The filesystem with artefacts 0 .. k-1 removed. */
  function WithoutArtefacts(files: map<Path, Bytes>, dir: Path, k: nat): map<Path, Bytes>
  {
    if k == 0 then files else WithoutArtefacts(files, dir, k - 1) - {ReassemblyPath(dir, k - 1)}
  }

  /** Removing artefacts 0 .. k-1 leaves every other path as it was. */
  lemma {:induction false} WithoutArtefactsKeepsOthers(files: map<Path, Bytes>, dir: Path, k: nat, q: Path)
    requires forall i :: 0 <= i < k ==> q != ReassemblyPath(dir, i)
    ensures q in WithoutArtefacts(files, dir, k) <==> q in files
    ensures q in files ==> WithoutArtefacts(files, dir, k)[q] == files[q]
  {
    if k > 0 {
      WithoutArtefactsKeepsOthers(files, dir, k - 1, q);
    }
  }

  /** In particular, artefacts numbered k and above are untouched. */
  lemma LaterArtefactsUntouched(files: map<Path, Bytes>, dir: Path, k: nat, j: nat)
    requires k <= j
    ensures ReassemblyPath(dir, j) in WithoutArtefacts(files, dir, k) <==> ReassemblyPath(dir, j) in files
    ensures ReassemblyPath(dir, j) in files ==>
      WithoutArtefacts(files, dir, k)[ReassemblyPath(dir, j)] == files[ReassemblyPath(dir, j)]
  {
    forall i | 0 <= i < k ensures ReassemblyPath(dir, j) != ReassemblyPath(dir, i) {
      ReassemblyPathsDistinct(dir, j, i);
    }
    WithoutArtefactsKeepsOthers(files, dir, k, ReassemblyPath(dir, j));
  }

  /** Artefacts 0 .. k-1 are gone. */
  lemma {:induction false} EarlierArtefactsRemoved(files: map<Path, Bytes>, dir: Path, k: nat, i: nat)
    requires i < k
    ensures ReassemblyPath(dir, i) !in WithoutArtefacts(files, dir, k)
  {
    var before := WithoutArtefacts(files, dir, k - 1);
    assert WithoutArtefacts(files, dir, k) == before - {ReassemblyPath(dir, k - 1)};
    if i < k - 1 {
      EarlierArtefactsRemoved(files, dir, k - 1, i);
    }
  }

  /** The state reassembly has reached after copying artefacts 0 .. i-1:
      those are removed and the output holds their contents in order. */
  function ReassemblyState(files0: map<Path, Bytes>, dir: Path, out: Path, i: nat): map<Path, Bytes>
  {
    WithoutArtefacts(files0, dir, i)[out := ArtefactsConcat(files0, dir, i)]
  }

  /** Artefact i is present midway exactly when it was present at the start. */
  lemma ReassemblyStepPresence(files0: map<Path, Bytes>, dir: Path, out: Path, i: nat, cur: map<Path, Bytes>)
    requires out != ReassemblyPath(dir, i)
    requires cur == ReassemblyState(files0, dir, out, i)
    ensures ReassemblyPath(dir, i) in cur <==> ReassemblyPath(dir, i) in files0
  {
    LaterArtefactsUntouched(files0, dir, i, i);
  }

  /** Copying artefact i onto the output and removing it moves the state
      from i to i + 1. */
  lemma ReassemblyStep(files0: map<Path, Bytes>, dir: Path, out: Path, i: nat, cur: map<Path, Bytes>)
    requires out != ReassemblyPath(dir, i)
    requires cur == ReassemblyState(files0, dir, out, i)
    requires ReassemblyPath(dir, i) in cur
    ensures out in cur
    ensures cur[out := cur[out] + cur[ReassemblyPath(dir, i)]] - {ReassemblyPath(dir, i)}
      == ReassemblyState(files0, dir, out, i + 1)
  {
    var cp := ReassemblyPath(dir, i);
    LaterArtefactsUntouched(files0, dir, i, i);
    assert cur[cp] == Stored(files0, cp);
    var lhs := cur[out := cur[out] + cur[cp]] - {cp};
    var rhs := ReassemblyState(files0, dir, out, i + 1);
    assert forall q :: q in lhs <==> q in rhs;
    assert forall q :: q in lhs ==> lhs[q] == rhs[q];
  }

  /** The contents of a path, None when it does not exist. */
  function FileAt(files: map<Path, Bytes>, p: Path): Option<Bytes>
  {
    if p in files then Some(files[p]) else None
  }

  /** write_chunk succeeds on this path: it has a directory part (so
      os.makedirs does not raise) and can be opened for writing. */
  predicate Writable(readOnly: set<Path>, p: Path)
  {
    Dirname(p) != [] && p !in readOnly
  }

  class FileHandler {
    const chunkSize: nat
    const disk: Disk
    const sha256: Bytes -> string

    constructor (chunkSize: nat, disk: Disk, sha256: Bytes -> string)
      ensures this.chunkSize == chunkSize && this.disk == disk && this.sha256 == sha256
    {
      this.chunkSize := chunkSize;
      this.disk := disk;
      this.sha256 := sha256;
    }

    /** None when the path does not exist (or when a zero chunk size makes
        the chunk count divide by zero); otherwise the basename, the size,
        the ceiling chunk count, the digest, this handler's chunk size, and
        encrypted left False. */
    function GetFileMetadata(path: Path): (r: Option<FileMetadata>)
      reads disk
      ensures r.None? <==> path !in disk.files || chunkSize == 0
      ensures r.Some? ==>
        var m, f := r.value, disk.files[path];
        && m.filename == Basename(path)
        && m.filesize == |f| && m.checksum == sha256(f)
        && m.chunkSize == chunkSize && !m.encrypted
        && m.chunks == ChunkCount(m.filesize, m.chunkSize)
        && IsCeiling(m.chunks, m.filesize, m.chunkSize)
    {
      if path !in disk.files || chunkSize == 0 then None
      else
        var f := disk.files[path];
        Some(FileMetadata(Basename(path), |f|, ChunkCount(|f|, chunkSize), sha256(f), chunkSize, false))
    }

    /** _calculate_checksum: the digest of the file, None when it cannot be
        opened because it does not exist. */
    function CalculateChecksum(path: Path): (r: Option<string>)
      reads disk
      ensures r.Some? <==> path in disk.files
      ensures r.Some? ==> r.value == sha256(disk.files[path])
    {
      match FileAt(disk.files, path)
      case Some(f) => Some(sha256(f))
      case None => None
    }

    /** The bytes of chunk index (see Chunking.ChunkShape and ChunksCover for
        what they are); None when the file does not exist or the seek
        offset index * chunk_size is negative, which raises. With a zero
        chunk size every offset is 0 and every read is empty, whatever the
        index. */
    function ReadChunk(path: Path, index: int): (r: Option<Bytes>)
      reads disk
      ensures r.None? <==> path !in disk.files || index * chunkSize < 0
      ensures r.Some? && index >= 0 ==> r.value == Chunk(disk.files[path], chunkSize, index)
      ensures r.Some? && index < 0 ==> r.value == []
      ensures r.Some? ==> |r.value| <= chunkSize
    {
      if path !in disk.files || (index < 0 && chunkSize > 0) then None
      else if index < 0 then Some([])
      else
        ChunkShape(disk.files[path], chunkSize, index);
        Some(Chunk(disk.files[path], chunkSize, index))
    }

    /** Fails, changing nothing, when the path has no directory part
        (os.makedirs('') raises) or cannot be opened for writing; otherwise
        truncates for index 0 and appends for later indices, and no other
        file changes. */
    method WriteChunk(path: Path, index: int, data: Bytes) returns (ok: bool)
      modifies disk
      ensures ok <==> Dirname(path) != [] && path !in disk.readOnly
      ensures disk.files == if ok then AfterWrite(old(disk.files), path, index, data) else old(disk.files)
    {
      if Dirname(path) == [] || path in disk.readOnly {
        return false;
      }
      if index > 0 {
        disk.files := disk.files[path := Stored(disk.files, path) + data];
      } else {
        disk.files := disk.files[path := data];
      }
      return true;
    }

    /** The indices in [0, total) whose artefact is absent or of the wrong
        size, in increasing order. */
    method GetMissingChunks(path: Path, total: int) returns (missing: seq<nat>)
      ensures forall k :: 0 <= k < |missing| ==> missing[k] < total
      ensures forall k, l :: 0 <= k < l < |missing| ==> missing[k] < missing[l]
      ensures forall i: nat :: i < total ==> (i in missing <==> ArtefactMissing(disk.files, path, chunkSize, i))
    {
      missing := [];
      var i := 0;
      while i < total
        invariant 0 <= i <= Max0(total)
        invariant forall k :: 0 <= k < |missing| ==> missing[k] < i
        invariant forall k, l :: 0 <= k < l < |missing| ==> missing[k] < missing[l]
        invariant forall j: nat :: j < i ==> (j in missing <==> ArtefactMissing(disk.files, path, chunkSize, j))
      {
        var expected := ExpectedArtefactSize(disk.files, path, chunkSize, i);
        var a := ArtefactPath(path, i);
        if a !in disk.files || |disk.files[a]| != expected {
          missing := missing + [i];
        }
        i := i + 1;
      }
    }

    /** Writes artefacts 0 .. total-1 of tempDir, in order, into outputPath
        and removes each one copied. Stops with False at the first absent
        artefact, leaving the output holding the artefacts before it and
        the later artefacts untouched; fails without any change when the
        output cannot be opened for writing. */
    method ReassembleFile(tempDir: Path, outputPath: Path, total: int) returns (ok: bool)
      requires forall i: nat :: i < total ==> outputPath != ReassemblyPath(tempDir, i)
      modifies disk
      ensures outputPath in disk.readOnly ==> !ok && disk.files == old(disk.files)
      ensures outputPath !in disk.readOnly ==>
        var k := FirstAbsentArtefact(old(disk.files), tempDir, 0, Max0(total));
        && ok == (k == Max0(total))
        && disk.files == ReassemblyState(old(disk.files), tempDir, outputPath, k)
    {
      if outputPath in disk.readOnly {
        return false;
      }
      ghost var files0 := disk.files;
      ghost var n := Max0(total);
      disk.files := disk.files[outputPath := []];
      var i := 0;
      while i < total
        invariant 0 <= i <= n
        invariant FirstAbsentArtefact(files0, tempDir, 0, n) == FirstAbsentArtefact(files0, tempDir, i, n)
        invariant disk.files == ReassemblyState(files0, tempDir, outputPath, i)
      {
        var cp := ReassemblyPath(tempDir, i);
        ReassemblyStepPresence(files0, tempDir, outputPath, i, disk.files);
        if cp !in disk.files {
          return false;
        }
        var data := disk.files[cp];
        ReassemblyStep(files0, tempDir, outputPath, i, disk.files);
        disk.files := disk.files[outputPath := disk.files[outputPath] + data];
        disk.files := disk.files - {cp};
        i := i + 1;
      }
      return true;
    }
  }
}
