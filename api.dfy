/**
 * The request handlers of backend/main.py and the module-level cache of
 * CSVService objects they share. Routing, JSON encoding and the response
 * objects of the web framework are not modelled: a handler returns its
 * payload, or the HTTPException it raises.
 */
module Api {
  import opened Wrappers
  import opened SegmentTable
  import opened CsvService
  import opened Http

  /** The body of a PUT: any field may be left out. */
  datatype SegmentUpdate = SegmentUpdate(startSec: Option<real>, endSec: Option<real>, text: Option<string>)

  /** The answer to an audio request: the whole file, or status 206 with a byte range. */
  datatype AudioReply =
    | WholeFile(path: string)
    | PartialContent(path: string, plan: RangePlan, body: seq<seq<bv8>>)

  /**
   * The reply for an existing audio file: the whole file when the Range
   * header is absent or empty; otherwise the 416 of the range plan, or a 206
   * whose body is exactly the planned bytes in pieces of 1 to 8192 bytes.
   */
  predicate AnswersAudio(path: string, file: seq<bv8>, rangeHeader: Option<string>, r: Result<AudioReply, HttpError>) {
    if rangeHeader.None? || rangeHeader.value == "" then r == Ok(WholeFile(path))
    else
      match PlanRange(rangeHeader.value, |file|)
      case Err(e) => r == Err(e)
      case Ok(plan) =>
        && r.Ok? && r.value.PartialContent? && r.value.path == path && r.value.plan == plan
        && Concat(r.value.body) == file[plan.first..plan.last + 1]
        && (forall i :: 0 <= i < |r.value.body| ==> 0 < |r.value.body[i]| <= ReadSize)
  }

  /** Lines 191-244 once the audio file is found: plan the range and stream it, or send the whole file. */
  method ReplyWithAudio(path: string, file: seq<bv8>, rangeHeader: Option<string>) returns (r: Result<AudioReply, HttpError>)
    ensures AnswersAudio(path, file, rangeHeader, r)
  {
    if rangeHeader.Some? && rangeHeader.value != "" {
      var plan := PlanRange(rangeHeader.value, |file|);
      if plan.Err? {
        return Err(plan.error);
      }
      var body := StreamRange(file, plan.value.first, plan.value.contentLength);
      StreamedBody(file, plan.value);
      return Ok(PartialContent(path, plan.value, body));
    }
    r := Ok(WholeFile(path));
  }

  function ProjectNotFound(name: string): (e: HttpError) {
    HttpError(404, "Project '" + name + "' not found", None)
  }

  const SegmentNotFound: HttpError := HttpError(404, "Segment not found", None)
  const ChunkNotFound: HttpError := HttpError(404, "Chunk not found", None)
  const AudioNotFound: HttpError := HttpError(404, "Audio file not found", None)
  const NoValidUpdates: HttpError := HttpError(400, "No valid updates provided", None)
  /** What the framework answers when a handler raises anything but an HTTPException. */
  const InternalError: HttpError := HttpError(500, "Internal Server Error", None)

  /** `PROJECTS_DIR / project_name`. */
  function ProjectPath(projectsDir: string, name: string): (path: string) {
    projectsDir + "/" + name
  }

  /** The update map of a PUT: exactly the fields the client sent, as cells. */
  function RequestedUpdates(u: SegmentUpdate): (m: map<string, Value>)
    ensures "start_sec" in m <==> u.startSec.Some?
    ensures "end_sec" in m <==> u.endSec.Some?
    ensures "text" in m <==> u.text.Some?
    ensures m.Keys <= AllowedFields
    ensures u.startSec.Some? ==> m["start_sec"] == Float(u.startSec.value)
    ensures u.endSec.Some? ==> m["end_sec"] == Float(u.endSec.value)
    ensures u.text.Some? ==> m["text"] == Str(u.text.value)
    ensures m == map[] <==> u == SegmentUpdate(None, None, None)
  {
    var withStart := if u.startSec.Some? then map["start_sec" := Float(u.startSec.value)] else map[];
    var withEnd := if u.endSec.Some? then withStart["end_sec" := Float(u.endSec.value)] else withStart;
    var m := if u.text.Some? then withEnd["text" := Str(u.text.value)] else withEnd;
    assert u.startSec.Some? ==> "start_sec" in m;
    assert u.endSec.Some? ==> "end_sec" in m;
    m
  }

  /** Lines 137-143: the `updates` dict, one optional field at a time. */
  method BuildUpdates(u: SegmentUpdate) returns (updates: map<string, Value>)
    ensures updates == RequestedUpdates(u)
  {
    updates := map[];
    if u.startSec.Some? {
      updates := updates["start_sec" := Float(u.startSec.value)];
    }
    if u.endSec.Some? {
      updates := updates["end_sec" := Float(u.endSec.value)];
    }
    if u.text.Some? {
      updates := updates["text" := Str(u.text.value)];
    }
  }

  /** A PUT changes at most the three editable fields of the segment it names, and keeps its id. */
  lemma PutTouchesOnlyEditableFields(row: Row, u: SegmentUpdate, id: int)
    ensures ApplyUpdates(row, RequestedUpdates(u)).Keys == row.Keys
    ensures HasSegmentId(ApplyUpdates(row, RequestedUpdates(u)), id) <==> HasSegmentId(row, id)
    ensures forall k :: k in row && k !in AllowedFields ==> ApplyUpdates(row, RequestedUpdates(u))[k] == row[k]
    ensures "text" in row && u.text.Some? ==> ApplyUpdates(row, RequestedUpdates(u))["text"] == Str(u.text.value)
    ensures "text" in row && u.text.None? ==> ApplyUpdates(row, RequestedUpdates(u))["text"] == row["text"]
  {
    ApplyUpdatesFrame(row, RequestedUpdates(u), id);
  }

  /** The application: the projects directory, the disk and the `_project_services` cache. */
  class App {
    const projectsDir: string
    const fs: FileSystem
    var services: map<string, CSVService>

    /** Every cached service works on the same disk, and no service is cached under two names. */
    ghost predicate Valid()
      reads this
    {
      && (forall n :: n in services ==> services[n].fs == fs)
      && (forall a, b :: a in services && b in services && a != b ==> services[a] != services[b])
    }

    /** get_service would return the cached service as it is. */
    ghost predicate HasCurrentService(name: string)
      reads this
    {
      name in services && services[name].projectPath == ProjectPath(projectsDir, name)
    }

    /** The segment cache of the service get_service returns; a new service has none. */
    ghost function CachedSegments(name: string): Option<Table>
      reads this, services.Values
    {
      if HasCurrentService(name) then services[name].segmentsCache else None
    }

    /** The chunk metadata cache of the service get_service returns; a new service has none. */
    ghost function CachedChunks(name: string): Option<seq<MetaRow>>
      reads this, services.Values
    {
      if HasCurrentService(name) then services[name].chunksCache else None
    }

    /** The table a segment read sees: the cached one, or segments.csv when nothing is cached. */
    ghost function VisibleTable(name: string): Table
      requires ProjectExists(name)
      reads this, services.Values, fs
    {
      match CachedSegments(name)
      case Some(t) => t
      case None => fs.segmentFiles[SegmentsFile(ProjectPath(projectsDir, name))]
    }

    /** The metadata a chunk read sees: the cached rows, or chunks_metadata.csv; None when neither exists. */
    ghost function VisibleChunks(name: string): Option<seq<MetaRow>>
      reads this, services.Values, fs
    {
      var path := ChunksMetadataFile(ProjectPath(projectsDir, name));
      if CachedChunks(name).Some? then CachedChunks(name)
      else if path in fs.metadataFiles then Some(fs.metadataFiles[path])
      else None
    }

    /** `(PROJECTS_DIR / name / "transcriptions" / "segments.csv").exists()`. */
    predicate ProjectExists(name: string)
      reads fs
    {
      SegmentsFile(ProjectPath(projectsDir, name)) in fs.segmentFiles
    }

    constructor (projectsDir: string, fs: FileSystem)
      ensures this.projectsDir == projectsDir && this.fs == fs
      ensures services == map[] && Valid()
    {
      this.projectsDir := projectsDir;
      this.fs := fs;
      services := map[];
    }

    /**
     * Lines 25-43: 404 when the project's segments.csv is missing, cached or
     * not; the cached service when its path still matches; otherwise a new
     * service that replaces the cache entry.
     */
    method GetService(name: string) returns (r: Result<CSVService, HttpError>)
      requires Valid()
      modifies this`services
      ensures Valid()
      ensures !ProjectExists(name) ==> r == Err(ProjectNotFound(name)) && services == old(services)
      ensures ProjectExists(name) ==> r.Ok? && services == old(services)[name := r.value]
      ensures r.Ok? ==> r.value.projectPath == ProjectPath(projectsDir, name) && r.value.fs == fs
      ensures r.Ok? && name in old(services) && old(services)[name].projectPath == ProjectPath(projectsDir, name) ==>
        r.value == old(services)[name]
      ensures r.Ok? && !(name in old(services) && old(services)[name].projectPath == ProjectPath(projectsDir, name)) ==>
        fresh(r.value) && r.value.segmentsCache == None && r.value.chunksCache == None
      ensures r.Ok? ==> r.value.segmentsCache == old(CachedSegments(name)) && r.value.chunksCache == old(CachedChunks(name))
    {
      var projectPath := ProjectPath(projectsDir, name);
      if SegmentsFile(projectPath) !in fs.segmentFiles {
        return Err(ProjectNotFound(name));
      }
      if name in services {
        var cached := services[name];
        if cached.projectPath == projectPath {
          return Ok(cached);
        }
        services := services - {name};
      }
      var service := new CSVService(fs, projectPath);
      services := services[name := service];
      r := Ok(service);
    }

    /** Lines 112-120: the segments of one chunk, or all of them. */
    method GetSegments(name: string, chunkId: Option<int>) returns (r: Result<seq<Row>, HttpError>)
      requires Valid()
      modifies this`services, services.Values
      ensures Valid()
      ensures !old(ProjectExists(name)) ==>
        services == old(services) && forall n :: n in services ==> unchanged(services[n])
      ensures !ProjectExists(name) ==> r == Err(ProjectNotFound(name))
      ensures ProjectExists(name) ==> r.Ok? && name in services && services[name].segmentsCache.Some?
      ensures old(ProjectExists(name)) ==>
        services[name].segmentsCache == Some(old(VisibleTable(name))) && services[name].chunksCache == old(CachedChunks(name))
      ensures forall n :: n in old(services) && n != name ==>
        n in services && services[n] == old(services)[n] && unchanged(old(services)[n])
      ensures old(ProjectExists(name)) ==> HasCurrentService(name)
      ensures old(ProjectExists(name)) && old(HasCurrentService(name)) ==> services[name] == old(services)[name]
      ensures r.Ok? && chunkId.Some? ==> r.value == SegmentsOfChunk(services[name].segmentsCache.value, chunkId.value)
      ensures r.Ok? && chunkId.None? ==> r.value == AllSegments(services[name].segmentsCache.value)
    {
      var s := GetService(name);
      if s.Err? {
        return Err(s.error);
      }
      var service := s.value;
      var segments;
      if chunkId.Some? {
        segments := service.GetSegmentsByChunk(chunkId.value);
      } else {
        segments := service.GetAllSegments();
      }
      r := Ok(segments);
    }

    /** Lines 123-130: 404 exactly when the service finds no segment with the id. */
    method GetSegment(name: string, segmentId: int) returns (r: Result<Row, HttpError>)
      requires Valid()
      modifies this`services, services.Values
      ensures Valid()
      ensures !old(ProjectExists(name)) ==>
        services == old(services) && forall n :: n in services ==> unchanged(services[n])
      ensures !ProjectExists(name) ==> r == Err(ProjectNotFound(name))
      ensures ProjectExists(name) ==> name in services && services[name].segmentsCache.Some?
      ensures old(ProjectExists(name)) ==>
        services[name].segmentsCache == Some(old(VisibleTable(name))) && services[name].chunksCache == old(CachedChunks(name))
      ensures forall n :: n in old(services) && n != name ==>
        n in services && services[n] == old(services)[n] && unchanged(old(services)[n])
      ensures old(ProjectExists(name)) ==> HasCurrentService(name)
      ensures old(ProjectExists(name)) && old(HasCurrentService(name)) ==> services[name] == old(services)[name]
      ensures ProjectExists(name) ==>
        (r == Err(SegmentNotFound) <==> LookupSegment(services[name].segmentsCache.value, segmentId).None?)
      ensures r.Ok? ==> LookupSegment(services[name].segmentsCache.value, segmentId) == Some(r.value)
      ensures ProjectExists(name) && LookupSegment(services[name].segmentsCache.value, segmentId).Some? ==>
        r == Ok(LookupSegment(services[name].segmentsCache.value, segmentId).value)
    {
      var s := GetService(name);
      if s.Err? {
        return Err(s.error);
      }
      var segment := s.value.GetSegment(segmentId);
      if segment.None? {
        return Err(SegmentNotFound);
      }
      r := Ok(segment.value);
    }

    /**
     * Lines 133-152: 400 before any write when no field is sent; 404 when
     * the id is unknown; otherwise the row as saved.
     */
    method UpdateSegment(name: string, segmentId: int, update: SegmentUpdate) returns (r: Result<Row, HttpError>)
      requires Valid()
      modifies this`services, services.Values, fs`segmentFiles
      ensures Valid()
      ensures !old(ProjectExists(name)) ==>
        services == old(services) && forall n :: n in services ==> unchanged(services[n])
      ensures !old(ProjectExists(name)) ==> r == Err(ProjectNotFound(name)) && fs.segmentFiles == old(fs.segmentFiles)
      ensures old(ProjectExists(name)) && update == SegmentUpdate(None, None, None) ==>
        && r == Err(NoValidUpdates) && fs.segmentFiles == old(fs.segmentFiles)
        && name in services && services[name].segmentsCache == old(CachedSegments(name))
      ensures old(ProjectExists(name)) && update != SegmentUpdate(None, None, None) ==>
        var path := SegmentsFile(ProjectPath(projectsDir, name));
        var t := old(fs.segmentFiles[path]);
        match FindSegment(t, segmentId)
        case None =>
          && r == Err(SegmentNotFound) && fs.segmentFiles == old(fs.segmentFiles)
          && name in services && services[name].segmentsCache == Some(t)
        case Some(i) =>
          var row := ApplyUpdates(t[i], RequestedUpdates(update));
          && r == Ok(CleanDict(row)) && fs.segmentFiles == old(fs.segmentFiles)[path := t[i := row]]
          && name in services && services[name].segmentsCache == Some(t[i := row])
      ensures old(ProjectExists(name)) ==> name in services && services[name].chunksCache == old(CachedChunks(name))
      ensures forall n :: n in old(services) && n != name ==>
        n in services && services[n] == old(services)[n] && unchanged(old(services)[n])
      ensures old(ProjectExists(name)) ==> HasCurrentService(name)
      ensures old(ProjectExists(name)) && old(HasCurrentService(name)) ==> services[name] == old(services)[name]
    {
      var s := GetService(name);
      if s.Err? {
        return Err(s.error);
      }
      var updates := BuildUpdates(update);
      if updates == map[] {
        return Err(NoValidUpdates);
      }
      var result := s.value.UpdateSegment(segmentId, updates);
      if result.None? {
        return Err(SegmentNotFound);
      }
      r := Ok(result.value);
    }

    /** Lines 155-162: 404 exactly when the service deletes nothing; otherwise the id echoed. */
    method DeleteSegment(name: string, segmentId: int) returns (r: Result<int, HttpError>)
      requires Valid()
      modifies this`services, services.Values, fs`segmentFiles
      ensures Valid()
      ensures !old(ProjectExists(name)) ==>
        services == old(services) && forall n :: n in services ==> unchanged(services[n])
      ensures !old(ProjectExists(name)) ==> r == Err(ProjectNotFound(name)) && fs.segmentFiles == old(fs.segmentFiles)
      ensures old(ProjectExists(name)) ==>
        var path := SegmentsFile(ProjectPath(projectsDir, name));
        var t := old(fs.segmentFiles[path]);
        match FindSegment(t, segmentId)
        case None =>
          && r == Err(SegmentNotFound) && fs.segmentFiles == old(fs.segmentFiles)
          && name in services && services[name].segmentsCache == Some(t)
        case Some(i) =>
          && r == Ok(segmentId) && fs.segmentFiles == old(fs.segmentFiles)[path := RemoveAt(t, i)]
          && name in services && services[name].segmentsCache == Some(RemoveAt(t, i))
      ensures old(ProjectExists(name)) ==> name in services && services[name].chunksCache == old(CachedChunks(name))
      ensures forall n :: n in old(services) && n != name ==>
        n in services && services[n] == old(services)[n] && unchanged(old(services)[n])
      ensures old(ProjectExists(name)) ==> HasCurrentService(name)
      ensures old(ProjectExists(name)) && old(HasCurrentService(name)) ==> services[name] == old(services)[name]
    {
      var s := GetService(name);
      if s.Err? {
        return Err(s.error);
      }
      var deleted := s.value.DeleteSegment(segmentId);
      if !deleted {
        return Err(SegmentNotFound);
      }
      r := Ok(segmentId);
    }

    /** Lines 165-170: all chunk records; 500 when the metadata file cannot be read. */
    method GetChunks(name: string) returns (r: Result<seq<ChunkRecord>, HttpError>)
      requires Valid()
      modifies this`services, services.Values
      ensures Valid()
      ensures !old(ProjectExists(name)) ==>
        services == old(services) && forall n :: n in services ==> unchanged(services[n])
      ensures !ProjectExists(name) ==> r == Err(ProjectNotFound(name))
      ensures ProjectExists(name) ==> name in services
      ensures old(ProjectExists(name)) ==>
        services[name].chunksCache == old(VisibleChunks(name)) && services[name].segmentsCache == old(CachedSegments(name))
      ensures forall n :: n in old(services) && n != name ==>
        n in services && services[n] == old(services)[n] && unchanged(old(services)[n])
      ensures old(ProjectExists(name)) ==> HasCurrentService(name)
      ensures old(ProjectExists(name)) && old(HasCurrentService(name)) ==> services[name] == old(services)[name]
      ensures ProjectExists(name) && services[name].chunksCache.None? ==> r == Err(InternalError)
      ensures r.Ok? ==> name in services && services[name].chunksCache.Some?
      ensures r.Ok? ==> r.value == Normalized(services[name].chunksCache.value)
      ensures ProjectExists(name) && services[name].chunksCache.Some? ==> r == Ok(Normalized(services[name].chunksCache.value))
    {
      var s := GetService(name);
      if s.Err? {
        return Err(s.error);
      }
      var chunks := s.value.GetAllChunks();
      if chunks.Err? {
        return Err(InternalError);
      }
      r := Ok(chunks.value);
    }

    /** Lines 173-180: 404 exactly when the service finds no chunk with the id. */
    method GetChunk(name: string, chunkId: int) returns (r: Result<ChunkRecord, HttpError>)
      requires Valid()
      modifies this`services, services.Values
      ensures Valid()
      ensures !old(ProjectExists(name)) ==>
        services == old(services) && forall n :: n in services ==> unchanged(services[n])
      ensures !ProjectExists(name) ==> r == Err(ProjectNotFound(name))
      ensures ProjectExists(name) ==> name in services
      ensures old(ProjectExists(name)) ==>
        services[name].chunksCache == old(VisibleChunks(name)) && services[name].segmentsCache == old(CachedSegments(name))
      ensures forall n :: n in old(services) && n != name ==>
        n in services && services[n] == old(services)[n] && unchanged(old(services)[n])
      ensures old(ProjectExists(name)) ==> HasCurrentService(name)
      ensures old(ProjectExists(name)) && old(HasCurrentService(name)) ==> services[name] == old(services)[name]
      ensures ProjectExists(name) && services[name].chunksCache.None? ==> r == Err(InternalError)
      ensures ProjectExists(name) && services[name].chunksCache.Some? ==>
        (r == Err(ChunkNotFound) <==> FindChunk(Normalized(services[name].chunksCache.value), chunkId).None?)
      ensures r.Ok? ==> name in services && services[name].chunksCache.Some?
      ensures r.Ok? ==> FindChunk(Normalized(services[name].chunksCache.value), chunkId) == Some(r.value)
      ensures (ProjectExists(name) && services[name].chunksCache.Some? &&
               FindChunk(Normalized(services[name].chunksCache.value), chunkId).Some?) ==>
        r == Ok(FindChunk(Normalized(services[name].chunksCache.value), chunkId).value)
    {
      var s := GetService(name);
      if s.Err? {
        return Err(s.error);
      }
      var chunk := s.value.GetChunk(chunkId);
      if chunk.Err? {
        return Err(InternalError);
      }
      if chunk.value.None? {
        return Err(ChunkNotFound);
      }
      r := Ok(chunk.value.value);
    }

    /**
     * Lines 183-244: the chunk's audio file, whole or, for a non-empty Range
     * header, the validated byte range read in pieces of at most 8192 bytes.
     */
    method StreamAudio(name: string, chunkId: int, rangeHeader: Option<string>) returns (r: Result<AudioReply, HttpError>)
      requires Valid()
      modifies this`services, services.Values
      ensures Valid()
      ensures !old(ProjectExists(name)) ==>
        services == old(services) && forall n :: n in services ==> unchanged(services[n])
      ensures !ProjectExists(name) ==> r == Err(ProjectNotFound(name))
      ensures ProjectExists(name) ==> name in services
      ensures old(ProjectExists(name)) ==>
        services[name].chunksCache == old(VisibleChunks(name)) && services[name].segmentsCache == old(CachedSegments(name))
      ensures forall n :: n in old(services) && n != name ==>
        n in services && services[n] == old(services)[n] && unchanged(old(services)[n])
      ensures old(ProjectExists(name)) ==> HasCurrentService(name)
      ensures old(ProjectExists(name)) && old(HasCurrentService(name)) ==> services[name] == old(services)[name]
      ensures ProjectExists(name) && services[name].chunksCache.None? ==> r == Err(InternalError)
      ensures ProjectExists(name) && services[name].chunksCache.Some? ==>
        match FindChunk(Normalized(services[name].chunksCache.value), chunkId)
        case None => r == Err(AudioNotFound)
        case Some(c) =>
          && (c.filePath !in fs.audioFiles ==> r == Err(AudioNotFound))
          && (c.filePath in fs.audioFiles ==> AnswersAudio(c.filePath, fs.audioFiles[c.filePath], rangeHeader, r))
    {
      var s := GetService(name);
      if s.Err? {
        return Err(s.error);
      }
      var found := s.value.GetChunkFilePath(chunkId);
      if found.Err? {
        return Err(InternalError);
      }
      if found.value.None? || found.value.value !in fs.audioFiles {
        return Err(AudioNotFound);
      }
      var path := found.value.value;
      r := ReplyWithAudio(path, fs.audioFiles[path], rangeHeader);
    }
  }
}
