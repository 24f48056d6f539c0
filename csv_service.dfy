/**
 * CSVService of backend/csv_service.py: a per-project object that caches
 * the segment table and the chunk metadata it read from disk. The disk is a
 * shared FileSystem object holding the contents of each file by path; writing
 * a table (the backup copy, the temporary file and the atomic rename of
 * `_save_with_backup`) is one assignment to its entry.
 */
module CsvService {
  import opened Wrappers
  import opened SegmentTable

  function SegmentsFile(projectPath: string): (path: string) {
    projectPath + "/transcriptions/segments.csv"
  }

  function ChunksMetadataFile(projectPath: string): (path: string) {
    projectPath + "/chunks/chunks_metadata.csv"
  }

  /** The exception pandas raises when a file it must read is absent. */
  datatype IoError = FileNotFound(path: string)

  /** The files the backend reads and writes, by path. */
  class FileSystem {
    var segmentFiles: map<string, Table>
    var metadataFiles: map<string, seq<MetaRow>>
    var audioFiles: map<string, seq<bv8>>

    constructor (segmentFiles: map<string, Table>, metadataFiles: map<string, seq<MetaRow>>,
                 audioFiles: map<string, seq<bv8>>)
      ensures this.segmentFiles == segmentFiles
      ensures this.metadataFiles == metadataFiles
      ensures this.audioFiles == audioFiles
    {
      this.segmentFiles := segmentFiles;
      this.metadataFiles := metadataFiles;
      this.audioFiles := audioFiles;
    }
  }

  class CSVService {
    const fs: FileSystem
    const projectPath: string
    /** `_segments_df`: None until the table is first read. */
    var segmentsCache: Option<Table>
    /** `_chunks_df`: None until the metadata is first read. */
    var chunksCache: Option<seq<MetaRow>>

    function SegmentsPath(): string { SegmentsFile(projectPath) }

    function ChunksMetaPath(): string { ChunksMetadataFile(projectPath) }

    /** True when load_segments(forceReload) can run without reading a missing file. */
    predicate CanLoadSegments(forceReload: bool)
      reads this, fs
    {
      (segmentsCache.Some? && !forceReload) || SegmentsPath() in fs.segmentFiles
    }

    constructor (fs: FileSystem, projectPath: string)
      ensures this.fs == fs && this.projectPath == projectPath
      ensures segmentsCache == None && chunksCache == None
    {
      this.fs := fs;
      this.projectPath := projectPath;
      segmentsCache := None;
      chunksCache := None;
    }

    /**
     * Reads segments.csv only when nothing is cached or a reload is forced.
     * The table is returned as a value, so a caller's later changes to it
     * never reach the cache (the `.copy()` of the source).
     */
    method LoadSegments(forceReload: bool) returns (df: Table)
      requires CanLoadSegments(forceReload)
      modifies this`segmentsCache
      ensures segmentsCache == Some(df)
      ensures old(segmentsCache).None? || forceReload ==> df == fs.segmentFiles[SegmentsPath()]
      ensures old(segmentsCache).Some? && !forceReload ==> df == old(segmentsCache).value
    {
      if segmentsCache.None? || forceReload {
        segmentsCache := Some(fs.segmentFiles[SegmentsPath()]);
      }
      df := segmentsCache.value;
    }

    method GetSegmentsByChunk(chunkId: int) returns (rows: seq<Row>)
      requires CanLoadSegments(false)
      modifies this`segmentsCache
      ensures old(segmentsCache).Some? ==> segmentsCache == old(segmentsCache)
      ensures old(segmentsCache).None? ==> segmentsCache == Some(fs.segmentFiles[SegmentsPath()])
      ensures segmentsCache.Some? && rows == SegmentsOfChunk(segmentsCache.value, chunkId)
    {
      var df := LoadSegments(false);
      rows := SegmentsOfChunk(df, chunkId);
    }

    method GetSegment(segmentId: int) returns (segment: Option<Row>)
      requires CanLoadSegments(false)
      modifies this`segmentsCache
      ensures old(segmentsCache).Some? ==> segmentsCache == old(segmentsCache)
      ensures old(segmentsCache).None? ==> segmentsCache == Some(fs.segmentFiles[SegmentsPath()])
      ensures segmentsCache.Some? && segment == LookupSegment(segmentsCache.value, segmentId)
    {
      var df := LoadSegments(false);
      segment := LookupSegment(df, segmentId);
    }

    method GetAllSegments() returns (rows: seq<Row>)
      requires CanLoadSegments(false)
      modifies this`segmentsCache
      ensures old(segmentsCache).Some? ==> segmentsCache == old(segmentsCache)
      ensures old(segmentsCache).None? ==> segmentsCache == Some(fs.segmentFiles[SegmentsPath()])
      ensures segmentsCache.Some? && rows == AllSegments(segmentsCache.value)
    {
      var df := LoadSegments(false);
      rows := AllSegments(df);
    }

    /** Reads chunks_metadata.csv only when nothing is cached or a reload is forced. */
    method LoadChunks(forceReload: bool) returns (r: Result<seq<MetaRow>, IoError>)
      modifies this`chunksCache
      ensures (old(chunksCache).None? || forceReload) && ChunksMetaPath() !in fs.metadataFiles ==>
        r == Err(FileNotFound(ChunksMetaPath())) && chunksCache == old(chunksCache)
      ensures (old(chunksCache).None? || forceReload) && ChunksMetaPath() in fs.metadataFiles ==>
        r == Ok(fs.metadataFiles[ChunksMetaPath()]) && chunksCache == Some(r.value)
      ensures old(chunksCache).Some? && !forceReload ==> r == Ok(old(chunksCache).value) && chunksCache == old(chunksCache)
    {
      if chunksCache.None? || forceReload {
        if ChunksMetaPath() !in fs.metadataFiles {
          return Err(FileNotFound(ChunksMetaPath()));
        }
        chunksCache := Some(fs.metadataFiles[ChunksMetaPath()]);
      }
      r := Ok(chunksCache.value);
    }

    /** One normalised record per metadata row, in order. */
    method GetAllChunks() returns (r: Result<seq<ChunkRecord>, IoError>)
      modifies this`chunksCache
      ensures old(chunksCache).Some? ==> chunksCache == old(chunksCache)
      ensures old(chunksCache).None? && ChunksMetaPath() in fs.metadataFiles ==>
        chunksCache == Some(fs.metadataFiles[ChunksMetaPath()])
      ensures old(chunksCache).None? && ChunksMetaPath() !in fs.metadataFiles ==>
        r == Err(FileNotFound(ChunksMetaPath())) && chunksCache == old(chunksCache)
      ensures r.Err? <==> chunksCache.None?
      ensures r.Err? ==> r.error == FileNotFound(ChunksMetaPath()) && chunksCache == old(chunksCache)
      ensures r.Ok? ==> |r.value| == |chunksCache.value|
      ensures r.Ok? ==> forall i :: 0 <= i < |r.value| ==> r.value[i] == Normalize(chunksCache.value[i])
    {
      var loaded := LoadChunks(false);
      if loaded.Err? {
        return Err(loaded.error);
      }
      var df := loaded.value;
      var chunks: seq<ChunkRecord> := [];
      for n := 0 to |df|
        invariant |chunks| == n
        invariant forall i :: 0 <= i < n ==> chunks[i] == Normalize(df[i])
      {
        chunks := chunks + [Normalize(df[n])];
      }
      r := Ok(chunks);
    }

    /** The first chunk record with the id, or None. */
    method GetChunk(chunkId: int) returns (r: Result<Option<ChunkRecord>, IoError>)
      modifies this`chunksCache
      ensures old(chunksCache).Some? ==> chunksCache == old(chunksCache)
      ensures old(chunksCache).None? && ChunksMetaPath() in fs.metadataFiles ==>
        chunksCache == Some(fs.metadataFiles[ChunksMetaPath()])
      ensures old(chunksCache).None? && ChunksMetaPath() !in fs.metadataFiles ==>
        r == Err(FileNotFound(ChunksMetaPath())) && chunksCache == old(chunksCache)
      ensures r.Err? <==> chunksCache.None?
      ensures r.Err? ==> r.error == FileNotFound(ChunksMetaPath())
      ensures r.Ok? ==> r.value == FindChunk(Normalized(chunksCache.value), chunkId)
    {
      var all := GetAllChunks();
      if all.Err? {
        return Err(all.error);
      }
      var chunks := all.value;
      assert chunks == Normalized(chunksCache.value);
      for n := 0 to |chunks|
        invariant FindChunk(chunks, chunkId) == FindChunk(chunks[n..], chunkId)
      {
        if chunks[n].chunkId == chunkId {
          return Ok(Some(chunks[n]));
        }
        assert chunks[n..][1..] == chunks[n + 1..];
      }
      r := Ok(None);
    }

    /** `Path(chunk["file_path"])` of the chunk, or None when there is no such chunk. */
    method GetChunkFilePath(chunkId: int) returns (r: Result<Option<string>, IoError>)
      modifies this`chunksCache
      ensures old(chunksCache).Some? ==> chunksCache == old(chunksCache)
      ensures old(chunksCache).None? && ChunksMetaPath() in fs.metadataFiles ==>
        chunksCache == Some(fs.metadataFiles[ChunksMetaPath()])
      ensures old(chunksCache).None? && ChunksMetaPath() !in fs.metadataFiles ==>
        r == Err(FileNotFound(ChunksMetaPath())) && chunksCache == old(chunksCache)
      ensures r.Err? <==> chunksCache.None?
      ensures r.Err? ==> r.error == FileNotFound(ChunksMetaPath())
      ensures r.Ok? ==> match FindChunk(Normalized(chunksCache.value), chunkId)
        case None => r.value == None
        case Some(c) => r.value == Some(c.filePath)
    {
      var chunk := GetChunk(chunkId);
      if chunk.Err? {
        return Err(chunk.error);
      }
      match chunk.value
      case None => r := Ok(None);
      case Some(c) => r := Ok(Some(c.filePath));
    }

    /**
     * Rereads the table, writes the allowed, existing columns of `updates`
     * into the first row with the id, saves it and caches it. An unknown id
     * writes nothing; the cache then holds the table just reread.
     */
    method UpdateSegment(segmentId: int, updates: map<string, Value>) returns (r: Option<Row>)
      requires SegmentsPath() in fs.segmentFiles
      modifies this`segmentsCache, fs`segmentFiles
      ensures var t := old(fs.segmentFiles[SegmentsPath()]);
        match FindSegment(t, segmentId)
        case None =>
          r == None && fs.segmentFiles == old(fs.segmentFiles) && segmentsCache == Some(t)
        case Some(i) =>
          var saved := t[i := ApplyUpdates(t[i], updates)];
          && fs.segmentFiles == old(fs.segmentFiles)[SegmentsPath() := saved]
          && segmentsCache == Some(saved)
          && r == Some(CleanDict(saved[i]))
    {
      var df := LoadSegments(true);
      ghost var t := df;
      var idx := FindSegment(df, segmentId);
      if idx.None? {
        return None;
      }
      var i := idx.value;
      var pending := updates.Keys;
      while pending != {}
        invariant pending <= updates.Keys
        invariant |df| == |t| && forall j :: 0 <= j < |t| && j != i ==> df[j] == t[j]
        invariant df[i].Keys == t[i].Keys
        invariant forall k :: k in t[i] ==>
          df[i][k] == if k in AllowedFields && k in updates && k !in pending then updates[k] else t[i][k]
        decreases pending
      {
        var key :| key in pending;
        if key in AllowedFields && key in df[i] {
          df := df[i := df[i][key := updates[key]]];
        }
        pending := pending - {key};
      }
      assert df[i] == ApplyUpdates(t[i], updates);
      assert df == t[i := ApplyUpdates(t[i], updates)];
      fs.segmentFiles := fs.segmentFiles[SegmentsPath() := df];
      segmentsCache := Some(df);
      r := Some(CleanDict(df[i]));
    }

    /**
     * Rereads the table, drops the first row with the id, saves and caches the
     * result. An unknown id writes nothing; the cache then holds the table
     * just reread.
     */
    method DeleteSegment(segmentId: int) returns (deleted: bool)
      requires SegmentsPath() in fs.segmentFiles
      modifies this`segmentsCache, fs`segmentFiles
      ensures var t := old(fs.segmentFiles[SegmentsPath()]);
        match FindSegment(t, segmentId)
        case None =>
          !deleted && fs.segmentFiles == old(fs.segmentFiles) && segmentsCache == Some(t)
        case Some(i) =>
          && deleted
          && fs.segmentFiles == old(fs.segmentFiles)[SegmentsPath() := RemoveAt(t, i)]
          && segmentsCache == Some(RemoveAt(t, i))
    {
      var df := LoadSegments(true);
      var idx := FindSegment(df, segmentId);
      if idx.None? {
        return false;
      }
      df := RemoveAt(df, idx.value);
      fs.segmentFiles := fs.segmentFiles[SegmentsPath() := df];
      segmentsCache := Some(df);
      deleted := true;
    }
  }

  /** The records get_all_chunks builds from the metadata rows. */
  function Normalized(meta: seq<MetaRow>): (r: seq<ChunkRecord>)
    ensures |r| == |meta| && forall i :: 0 <= i < |meta| ==> r[i] == Normalize(meta[i])
  {
    seq(|meta|, i requires 0 <= i < |meta| => Normalize(meta[i]))
  }
}
