# Segment Editor backend and launcher, modelled in Dafny

The Segment Editor serves the transcription segments of a dubbing project
(`transcriptions/segments.csv`) and its audio chunks (`chunks/`, described by
`chunks/chunks_metadata.csv`) to a browser editor. This project models three
parts of it:

- **The segment table service** (`backend/csv_service.py`): `CSVService` caches the segment
  table and the chunk metadata of one project. It answers first-match lookups by segment id
  and by chunk id, and filters segments by chunk. It rewrites the allowed fields
  (`start_sec`, `end_sec`, `text`) of one segment, deletes one segment, and saves each change
  back to disk. The pure table logic is in `segment_table.dfy` (module `SegmentTable`). The
  stateful service, its caches and the shared disk (class `FileSystem`) are in
  `csv_service.dfy` (module `CsvService`).
- **The HTTP handlers** (`backend/main.py`):
  - the per-project cache of service objects with its invalidation by path (`get_service`);
  - the segment and chunk handlers with their 400/404 answers;
  - the audio handler: it parses and validates the `Range` header, then reads the requested
    bytes in pieces of at most 8192 bytes.

  The range logic is in `http.dfy` (module `Http`). The handlers are in `api.dfy` (module
  `Api`, class `App`).
- **The launcher** (`launch.py`): a session dict from port numeral to project path, and a
  pool of three ports. It drops sessions whose port is no longer in use, finds a running
  session of the project, and takes the first free pool port. It registers the session on
  start and removes it on exit. This is in `launcher.dfy` (module `Launcher`, class
  `SessionStore`).

`decimal.dfy` holds the decimal numerals that `int()` reads and `str()` writes, and
`wrappers.dfy` holds `Option` and `Result`.

Modelling choices:
- A table is a sequence of rows, and a row is a map from column name to a cell. A cell is
  `Null`, an integer, a float (a `real`, never computed with), `NaN` or a string.
- Writing a file is one assignment to the file's entry in `FileSystem`.
- A handler returns either its payload or the `HttpError` it raises.
- The launcher takes the socket probe `is_port_in_use` as the set of busy ports.
- The sessions dict is the sequence of its items in insertion order, because
  `get_project_port` returns the first match in that order.

Where the code and its descriptions differ, the model follows the code:
- A Range header `bytes=-N` is read as bytes `0..N`. Section 14.1.2 of RFC 9110 reads it as
  the last N bytes.
- A range end at or past the file size is answered with 416, where RFC 9110 clamps it.
- `update_segment` and `delete_segment` reload the table before they look for the id. On an
  unknown id they write nothing, but the cache afterwards holds the table just read from
  disk, not the earlier cache.

## Model

| member | source | states |
|---|---|---|
| SegmentTable.CleanDict | backend/csv_service.py:11-16 | the same keys; a value changes only when it is NaN, and then becomes None; no NaN is left |
| SegmentTable.CleanDictFixesClean | backend/csv_service.py:11-16 | cleaning a row without NaN returns it unchanged |
| SegmentTable.FindSegment | backend/csv_service.py:53-56 | None exactly when no row has the segment id; otherwise the index of the first row that has it |
| SegmentTable.LookupSegment | backend/csv_service.py:50-56 | get_segment is None iff no row has the id; otherwise it is the cleaned first such row |
| SegmentTable.SegmentsOfChunk | backend/csv_service.py:44-48 | every returned row belongs to the chunk and holds no NaN |
| SegmentTable.SegmentsOfChunkMembers | backend/csv_service.py:44-48 | a row is returned iff it is the cleaned form of a row whose chunk_id is the argument |
| SegmentTable.SegmentsOfChunkAppend | backend/csv_service.py:44-48 | the chunk filter keeps table order: filtering a concatenation concatenates the filtered parts |
| SegmentTable.AllSegments | backend/csv_service.py:58-61 | one cleaned row per table row, in order |
| SegmentTable.ApplyUpdatesFrame | backend/csv_service.py:93-97 | the update keeps the columns and the segment id; only allowed, requested, existing columns take the new value, and every other cell is unchanged |
| SegmentTable.ApplyUpdates | backend/csv_service.py:95-97 | the updated row has the same columns, and every column outside start_sec, end_sec and text keeps its value |
| SegmentTable.ApplyUpdatesIdempotent | backend/csv_service.py:93-97 | applying the same updates twice gives the row of applying them once |
| SegmentTable.LookupAfterUpdate | backend/csv_service.py:89-105 | after the update, get_segment on the same id returns the updated row, cleaned |
| SegmentTable.RemoveAt | backend/csv_service.py:116 | dropping row i shortens the table by one and removes exactly that row as a multiset |
| SegmentTable.RemoveAtShape | backend/csv_service.py:116 | the rows before i keep their places, and the rows after i move up by one |
| SegmentTable.DeleteRemovesId | backend/csv_service.py:109-116 | with unique segment ids, no row carries the id after the delete |
| SegmentTable.FindChunk | backend/csv_service.py:77-83 | None iff no record has the chunk id; otherwise the first record that has it |
| CsvService.Normalized | backend/csv_service.py:63-75 | one normalised record per metadata row, in order |
| CsvService.CSVService.constructor | backend/csv_service.py:22-30 | a new service for the project path, with both caches empty |
| CsvService.CSVService.LoadSegments | backend/csv_service.py:32-36 | segments.csv is read only when nothing is cached or a reload is forced; otherwise the cached table is returned; the cache then holds the returned table |
| CsvService.CSVService.GetSegmentsByChunk | backend/csv_service.py:44-48 | the cleaned rows of the chunk in the (possibly just loaded) cached table; the cache changes only if it was empty |
| CsvService.CSVService.GetSegment | backend/csv_service.py:50-56 | the first row with the id, cleaned, or None, from the cached table |
| CsvService.CSVService.GetAllSegments | backend/csv_service.py:58-61 | every cached row, cleaned, in order |
| CsvService.CSVService.LoadChunks | backend/csv_service.py:38-42 | the metadata is read only when nothing is cached or a reload is forced; a missing file is an error that leaves the cache as it was |
| CsvService.CSVService.GetAllChunks | backend/csv_service.py:63-75 | one normalised record per cached metadata row, in order, or the read error; with nothing cached and chunks_metadata.csv missing, it is that error |
| CsvService.CSVService.GetChunk | backend/csv_service.py:77-83 | the first record with the chunk id, or None, or the read error; with nothing cached and chunks_metadata.csv missing, it is that error |
| CsvService.CSVService.GetChunkFilePath | backend/csv_service.py:146-151 | the file path of the first record with the chunk id, or None, or the read error; with nothing cached and chunks_metadata.csv missing, it is that error |
| CsvService.CSVService.UpdateSegment | backend/csv_service.py:85-105 | unknown id: None and nothing written. Otherwise segments.csv becomes the reread table with only the first matching row updated (allowed, existing columns), the cache equals the saved table, and the result is that row cleaned |
| CsvService.CSVService.DeleteSegment | backend/csv_service.py:107-124 | unknown id: false and nothing written. Otherwise segments.csv and the cache become the reread table without the first matching row, and the result is true |
| Api.RequestedUpdates | backend/main.py:137-145 | the update map holds exactly the fields the client sent, with their values, all of them editable fields; it is empty iff no field was sent |
| Api.BuildUpdates | backend/main.py:137-143 | the dict built field by field is the update map of the request |
| Api.PutTouchesOnlyEditableFields | backend/main.py:133-148 | a PUT keeps the columns and the segment id and changes no column outside start_sec, end_sec and text; a sent text is written, an absent one kept |
| Api.App.constructor | backend/main.py:16-22 | the projects directory and an empty service cache |
| Api.App.GetService | backend/main.py:25-43 | 404 whenever segments.csv is missing, cached or not. A cached service whose path still matches is returned as is, caches included. Otherwise a new service for the project path, with empty caches, replaces the cache entry; other projects' services are unchanged |
| Api.App.GetSegments | backend/main.py:112-120 | the segments of the chunk, or all segments, of the project's table; 404 for a missing project. Afterwards the service caches the table it had cached, or segments.csv if none; the chunk cache and other projects' services are unchanged. A missing project leaves the service cache as it was. For an existing project the cache entry is afterwards a service for that project, the same instance when it already was one |
| Api.App.GetSegment | backend/main.py:123-130 | 404 "Segment not found" iff no row has the id; otherwise exactly the first such row, cleaned, of the table cached before or read from disk, which the service then caches; other projects' services are unchanged. A missing project leaves the service cache as it was. For an existing project the cache entry is afterwards a service for that project, the same instance when it already was one |
| Api.App.UpdateSegment | backend/main.py:133-152 | 400 and nothing written when no field is sent; 404 and nothing written when the id is unknown; otherwise the first matching row is saved with the sent fields and returned. After a 404 or a successful update the segment cache equals segments.csv; a 400 leaves it as it was; the chunk cache and other projects' services are unchanged. A missing project leaves the service cache as it was. For an existing project the cache entry is afterwards a service for that project, the same instance when it already was one |
| Api.App.DeleteSegment | backend/main.py:155-162 | 404 and nothing written iff the id is unknown; otherwise the first matching row is removed on disk and the id is echoed. The segment cache afterwards equals segments.csv; the chunk cache and other projects' services are unchanged. A missing project leaves the service cache as it was. For an existing project the cache entry is afterwards a service for that project, the same instance when it already was one |
| Api.App.GetChunks | backend/main.py:165-170 | all normalised chunk records, whenever the metadata is cached or on disk; 500 when nothing is cached and the metadata file is missing. The chunk cache afterwards holds what was cached, or the metadata read from disk; other projects' services are unchanged. A missing project leaves the service cache as it was. For an existing project the cache entry is afterwards a service for that project, the same instance when it already was one |
| Api.App.GetChunk | backend/main.py:173-180 | 500 when nothing is cached and the metadata file is missing; otherwise 404 "Chunk not found" iff no record has the chunk id, and else exactly the first such record, from the metadata cached before or read from disk; other projects' services are unchanged. A missing project leaves the service cache as it was. For an existing project the cache entry is afterwards a service for that project, the same instance when it already was one |
| Api.App.StreamAudio | backend/main.py:183-244 | 404 for an unknown chunk or a missing audio file. Without a Range header (or with an empty one) the whole file. Otherwise the 416 of PlanRange, or a 206 reply whose body is exactly bytes first..last in pieces of 1 to 8192 bytes. Other projects' services are unchanged. A missing project leaves the service cache as it was. For an existing project the cache entry is afterwards a service for that project, the same instance when it already was one |
| Api.ReplyWithAudio | backend/main.py:191-244 | for a found audio file: the whole file without a Range header, else the 416 of PlanRange or the 206 pieces that join to bytes first..last |
| Http.RemoveAll | backend/main.py:199 | `replace(pat, "")`; the result is never longer than the input. What it removes is pinned down by StripPrefix, RemoveAllNone and RemoveAllCleanPrefix |
| Http.RemoveAllNone | backend/main.py:199 | a string without the pattern's first character is left unchanged |
| Http.RemoveAllCleanPrefix | backend/main.py:199 | a prefix without the pattern's first character passes through unchanged, and removal goes on in the rest |
| Http.Split | backend/main.py:200 | at least one part, no part holds the separator, and joining the parts with it gives back the string |
| Http.SplitNoSep | backend/main.py:200 | a string without the separator splits into itself alone |
| Http.SplitPair | backend/main.py:200 | a + "-" + b splits into [a, b] when neither holds "-" |
| Http.SplitHead | backend/main.py:200 | a + "-" + rest splits into a followed by the parts of rest |
| Http.PartOr | backend/main.py:201-202 | an empty part gives the default; a non-empty part parses iff it is all decimal digits |
| Http.ParseRangeHeader | backend/main.py:198-204 | after removing "bytes=" and splitting on "-": a range iff the first part reads (empty as 0), there is a second part, and it reads (empty as size - 1); then the range is those two values, with a non-negative start and an end of at least -1 |
| Http.PlanRange | backend/main.py:196-214 | served iff the header parses and start <= end < file size. Then content_length = end - start + 1, between 1 and the file size, and Content-Range "bytes start-end/size". Every failure is 416: "Invalid Range header" iff parsing fails, otherwise "Range not satisfiable" with Content-Range "bytes */size" |
| Http.StripPrefix | backend/main.py:199 | removing "bytes=" from "bytes=" + rest leaves rest, when rest holds no 'b' |
| Http.ParseClosedRange | backend/main.py:199-202 | "bytes=a-b" is read as the range a..b |
| Http.PlanClosedRange | backend/main.py:199-214 | "bytes=a-b" is served iff a <= b < file size, with that range; otherwise 416 with Content-Range "bytes */size" |
| Http.ParseOpenEnded | backend/main.py:202 | "bytes=a-" runs to the last byte of the file |
| Http.ParseSuffixForm | backend/main.py:201 | "bytes=-n" is read as bytes 0..n |
| Http.ParseNoDash | backend/main.py:200-204 | "bytes=a" lacks a second part and is answered with 416 "Invalid Range header" |
| Http.ParseExtraParts | backend/main.py:199-202 | parts after the second are ignored, whatever they hold |
| Http.ParseNonNumericFirst | backend/main.py:199-206 | a non-empty first part that is not all digits and holds no 'b' and no '-' fails to parse and is answered with 416 "Invalid Range header" |
| Http.Read | backend/main.py:222 | a read returns at most the requested bytes, and nothing only at end of file or for a zero request |
| Http.SliceExtend | backend/main.py:218-226 | a read at the current position extends the bytes streamed so far by exactly the bytes read |
| Http.StreamRange | backend/main.py:216-226 | every piece holds 1 to 8192 bytes; the pieces joined are the file from start for content_length bytes, cut at end of file; they total at most content_length |
| Http.StreamedBody | backend/main.py:214-226 | for a validated range the streamed body is exactly bytes first..last, content_length of them |
| Decimal.Parse | backend/main.py:201-202 | `int()` accepts a string iff it is a non-empty run of decimal digits |
| Decimal.Show | launch.py:151 | `str()` of a port is a non-empty digit string without a leading zero |
| Decimal.ParseShow | launch.py:151 | reading back the key written for a port gives the port |
| Decimal.ShowInjective | launch.py:151 | distinct ports get distinct keys |
| Launcher.Active | launch.py:49-55 | the kept sessions are no more than the input, and each is on a busy port |
| Launcher.ActiveMembers | launch.py:49-55 | an entry is kept iff it is in the input and its port is in use; values are unchanged |
| Launcher.ActiveWellFormed | launch.py:49-55 | cleanup keeps the keys distinct and numeric |
| Launcher.CleanupStaleSessions | launch.py:49-55 | the loop builds exactly the in-use entries in their order |
| Launcher.FirstFree | launch.py:58-66 | the first pool port, in pool order, that is neither a session's port nor in use; None iff every pool port is one or the other |
| Launcher.FindAvailablePort | launch.py:58-66 | the loop over the pool returns that first free port, or None |
| Launcher.ProjectPort | launch.py:69-74 | the port of the first session of the project, or None iff no session has that project |
| Launcher.GetProjectPort | launch.py:69-74 | the loop over the sessions returns that port, or None |
| Launcher.FreePortKeyIsNew | launch.py:141-151 | the numeral of a free port is not already a session key |
| Launcher.RemoveKey | launch.py:183-184 | deleting a key never lengthens the sessions |
| Launcher.RemoveKeyMembers | launch.py:183-184 | deleting a key drops exactly the entries with that key and keeps every other entry |
| Launcher.RemoveAbsentKey | launch.py:183 | deleting a key that is not present changes nothing |
| Launcher.RemovePresentKey | launch.py:183-184 | deleting a present key removes exactly one entry |
| Launcher.RemoveKeyWellFormed | launch.py:183-184 | deleting keeps the keys distinct and numeric |
| Launcher.PoolBound | launch.py:22 | sessions with distinct keys that all name pool ports number at most len(PORT_POOL) |
| Launcher.ActivePoolOwned | launch.py:49-55 | cleanup keeps every key a pool port |
| Launcher.RemoveKeyPoolOwned | launch.py:183-184 | unregistering keeps every key a pool port |
| Launcher.Decide | launch.py:104-152 | "list" iff list-only; "project missing" iff not list-only and segments.csv or chunks/ is missing; every outcome but a start keeps the sessions, and a start appends exactly one session |
| Launcher.DecideOutcomes | launch.py:131-152 | only a start changes the sessions. "Already running" iff the project's first recorded port is non-zero and in use, and then nothing is registered; a start happens only when it is not. "All ports in use" means every pool port is taken. A start registers str(port) -> project for a pool port that is not busy, not a session's port and not yet a key, appended after the others |
| Launcher.RunningProjectNotRestarted | launch.py:131-138 | a project with a session on a port in use is answered "already running" with that project's port, and no session is added |
| Launcher.DecideWellFormed | launch.py:141-152 | registration keeps the keys distinct and numeric |
| Launcher.DecidePoolOwned | launch.py:141-152 | registration adds only pool-port keys |
| Launcher.SessionStore.constructor | launch.py:32-40 | the store holds the sessions read from the lock file |
| Launcher.SessionStore.Launch | launch.py:98-152 | the saved sessions and the outcome are those of cleanup followed by the decision (list, missing project, already running, all ports in use, started); a start never happens while the project's recorded port is in use; the keys stay distinct, numeric and, if they were, pool ports |
| Launcher.SessionStore.Release | launch.py:180-185 | the entry of this port is removed if present, one entry fewer; otherwise nothing changes; other entries are untouched |

## Left out

- Disk I/O is left out: pandas CSV parsing and writing, and the backup copy, timestamped name, temporary file and atomic rename of `_save_with_backup` (backend/csv_service.py:126-144). A save is one assignment of the table to the file's entry, and a table read back is the table written; type changes from a CSV round trip are not modelled.
- SegmentTable.HasSegmentId: `df["segment_id"] == segment_id` is modelled as an integer cell equal to the id; pandas would also match a float cell such as 3.0.
- SegmentTable.HasSegmentId, SegmentTable.InChunk: a row map may lack the column, and then the row simply does not match. In pandas, a segments.csv without a `segment_id` or `chunk_id` column makes `df["segment_id"]` or `df["chunk_id"]` raise KeyError (backend/csv_service.py:47, 53, 89, 111), which the server answers with 500. The model answers 404 or an empty list.
- SegmentTable.InChunk: `df["chunk_id"] == chunk_id` (backend/csv_service.py:47) is modelled the same way, as an integer cell equal to the chunk id; a float cell such as 3.0 would also match in pandas.
- CsvService.CSVService.UpdateSegment: `key in df.columns` is checked against the keys of the matched row, which are the table's columns when every row has them.
- Chunk metadata rows (`MetaRow`) are typed at read time; the `int()`/`float()` conversions of `get_all_chunks` and their failures on malformed cells are not modelled.
- Floats are opaque `real` values with NaN as a separate tag, because the backend does no arithmetic on them.
- Paths are joined by string concatenation, so `Path` normalisation (a project name holding "/" or "..") is not modelled.
- Decimal.Parse: `int()` is digits only. Python also accepts surrounding whitespace, a leading "+" or "-", underscores between digits and non-ASCII digits.
- Decimal.Parse: Python's limit on the length of decimal strings that `int()` converts is not modelled. On Python 3.11 and later (and the security releases of 3.7-3.10), a part of more than 4300 digits raises ValueError, which backend/main.py:203-204 answers with 416 "Invalid Range header". The model parses such a part and answers "Range not satisfiable" with a Content-Range header.
- Api.App.GetChunks: the 500 answer stands for the unhandled exception pandas raises when chunks_metadata.csv is missing. Other unhandled exceptions are not modelled.
- Api.App.StreamAudio: `iterfile` is modelled as reads of the file's contents at the time of the request. Its laziness, the async reads and a file that changes while it is streamed are not modelled. The full-file FileResponse is modelled only by its path.
- The response headers other than Content-Range and Content-Length (Accept-Ranges, media type) and the response objects of the web framework are left out.
- `list_projects` (backend/main.py:81-98) is left out: a directory scan plus a float maximum over chunk metadata.
- `get_project_info` (backend/main.py:101-109) is left out; it only calls `get_service` and echoes the name and path.
- Routing, CORS, the static frontend mount and request concurrency (two writers racing on segments.csv) are left out.
- The launcher's own I/O is left out: `is_port_in_use` is the set of busy ports; `load_sessions`/`save_sessions` JSON handling (a corrupt lock file read as empty) is not modelled; argparse, printing, environment variables and the uvicorn run are left out.
- Launcher.SessionStore.constructor: requires distinct numeric keys. A lock file with a non-numeric key makes `int()` raise in the launcher, and that crash is not modelled.
- Launcher.SessionStore.Release: it works on the store's current sessions. Changes that another launcher makes to the lock file while the server runs are those current sessions; the model does not interleave them.
- run.py is not part of this model.
- The browser editor (undo stack, region/table synchronisation) is not part of this model.
