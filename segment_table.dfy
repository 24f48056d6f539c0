/**
 * The segment table of backend/csv_service.py as values: a table is the
 * sequence of its rows, a row maps column names to cell values. The pure
 * operations (clean_dict, the chunk filter, the first-match lookups, the
 * field-restricted update of one row, the removal of one row) are functions
 * here; CsvService wraps them with the cache and the file.
 */
module SegmentTable {
  import opened Wrappers

  /** A cell as pandas hands it out; `NaN` is a float that is not a number. */
  datatype Value = Null | Int(i: int) | Float(x: real) | NaN | Str(s: string)

  type Row = map<string, Value>
  type Table = seq<Row>

  const SegmentIdColumn: string := "segment_id"
  const ChunkIdColumn: string := "chunk_id"

  /** The only columns update_segment may write. */
  const AllowedFields: set<string> := {"start_sec", "end_sec", "text"}

  // ---------------------------------------------------------------------------
  // clean_dict

  predicate NoNaN(d: Row) { forall k :: k in d ==> d[k] != NaN }

  /** NaN cells become None so that the row can be sent as JSON. */
  function CleanDict(d: Row): (r: Row)
    ensures r.Keys == d.Keys
    ensures forall k :: k in d ==> r[k] == d[k] || (d[k] == NaN && r[k] == Null)
    ensures NoNaN(r)
  {
    map k | k in d :: if d[k] == NaN then Null else d[k]
  }

  /** Cleaning a row that holds no NaN changes nothing. */
  lemma CleanDictFixesClean(d: Row)
    requires NoNaN(d)
    ensures CleanDict(d) == d
  {
    var r := CleanDict(d);
    forall k | k in d ensures r[k] == d[k] {
      assert d[k] != NaN;
    }
  }

  // ---------------------------------------------------------------------------
  // Matching rows: `df["segment_id"] == segment_id`, `df["chunk_id"] == chunk_id`

  predicate HasSegmentId(row: Row, id: int) {
    SegmentIdColumn in row && row[SegmentIdColumn] == Int(id)
  }

  predicate InChunk(row: Row, chunkId: int) {
    ChunkIdColumn in row && row[ChunkIdColumn] == Int(chunkId)
  }

  /** `df[df["segment_id"] == segment_id].index[0]`: the first row with the id. */
  function FindSegment(t: Table, id: int): (r: Option<nat>)
    ensures r.None? <==> forall i :: 0 <= i < |t| ==> !HasSegmentId(t[i], id)
    ensures r.Some? ==> r.value < |t| && HasSegmentId(t[r.value], id)
    ensures r.Some? ==> forall j :: 0 <= j < r.value ==> !HasSegmentId(t[j], id)
  {
    if |t| == 0 then None
    else if HasSegmentId(t[0], id) then Some(0)
    else match FindSegment(t[1..], id)
      case None => None
      case Some(i) => Some(i + 1)
  }

  /**
   * get_segment: nothing exactly when no row carries the id, and otherwise
   * the first such row, cleaned.
   */
  function LookupSegment(t: Table, id: int): (r: Option<Row>)
    ensures r.None? <==> forall i :: 0 <= i < |t| ==> !HasSegmentId(t[i], id)
    ensures r.Some? ==>
      (exists i :: 0 <= i < |t| && HasSegmentId(t[i], id) && r.value == CleanDict(t[i]) &&
        (forall j :: 0 <= j < i ==> !HasSegmentId(t[j], id)))
  {
    match FindSegment(t, id)
    case None => None
    case Some(i) =>
      assert HasSegmentId(t[i], id) && (forall j :: 0 <= j < i ==> !HasSegmentId(t[j], id));
      Some(CleanDict(t[i]))
  }

  // ---------------------------------------------------------------------------
  // get_segments_by_chunk and get_all_segments

  /** The rows of one chunk, in table order, each cleaned. */
  function SegmentsOfChunk(t: Table, chunkId: int): (r: seq<Row>)
    ensures |r| <= |t|
    ensures forall k :: 0 <= k < |r| ==> InChunk(r[k], chunkId) && NoNaN(r[k])
  {
    if t == [] then []
    else (if InChunk(t[0], chunkId) then [CleanDict(t[0])] else []) + SegmentsOfChunk(t[1..], chunkId)
  }

  /** Filtering a concatenation filters each part and keeps their order. */
  lemma {:induction false} SegmentsOfChunkAppend(a: Table, b: Table, chunkId: int)
    ensures SegmentsOfChunk(a + b, chunkId) == SegmentsOfChunk(a, chunkId) + SegmentsOfChunk(b, chunkId)
  {
    if a != [] {
      assert (a + b)[1..] == a[1..] + b;
      SegmentsOfChunkAppend(a[1..], b, chunkId);
    } else {
      assert a + b == b;
    }
  }

  /** A row is returned exactly when it is the cleaned form of a row of that chunk. */
  lemma {:induction false} SegmentsOfChunkMembers(t: Table, chunkId: int, x: Row)
    ensures x in SegmentsOfChunk(t, chunkId) <==>
      exists i :: 0 <= i < |t| && InChunk(t[i], chunkId) && x == CleanDict(t[i])
  {
    if t != [] {
      SegmentsOfChunkMembers(t[1..], chunkId, x);
      if x in SegmentsOfChunk(t[1..], chunkId) {
        var i :| 0 <= i < |t[1..]| && InChunk(t[1..][i], chunkId) && x == CleanDict(t[1..][i]);
        assert InChunk(t[i + 1], chunkId) && x == CleanDict(t[i + 1]);
      }
      if exists i :: 0 <= i < |t| && InChunk(t[i], chunkId) && x == CleanDict(t[i]) {
        var i :| 0 <= i < |t| && InChunk(t[i], chunkId) && x == CleanDict(t[i]);
        if i > 0 {
          assert InChunk(t[1..][i - 1], chunkId) && x == CleanDict(t[1..][i - 1]);
        }
      }
    }
  }

  /** get_all_segments: every row, in order, each cleaned. */
  function AllSegments(t: Table): (r: seq<Row>)
    ensures |r| == |t| && forall i :: 0 <= i < |t| ==> r[i] == CleanDict(t[i])
  {
    seq(|t|, i requires 0 <= i < |t| => CleanDict(t[i]))
  }

  // ---------------------------------------------------------------------------
  // update_segment on one row

  /** The row after `df.loc[idx, key] = value` for every allowed key of `updates` that is a column. */
  function ApplyUpdates(row: Row, updates: map<string, Value>): (r: Row)
    ensures r.Keys == row.Keys
    ensures forall k :: k in row && k !in AllowedFields ==> r[k] == row[k]
  {
    map k | k in row :: if k in AllowedFields && k in updates then updates[k] else row[k]
  }

  /** Writing an update keeps the columns, keeps the segment id and touches only allowed, requested columns. */
  lemma ApplyUpdatesFrame(row: Row, updates: map<string, Value>, id: int)
    ensures ApplyUpdates(row, updates).Keys == row.Keys
    ensures HasSegmentId(ApplyUpdates(row, updates), id) <==> HasSegmentId(row, id)
    ensures forall k :: k in row && (k !in AllowedFields || k !in updates) ==> ApplyUpdates(row, updates)[k] == row[k]
    ensures forall k :: k in row && k in AllowedFields && k in updates ==> ApplyUpdates(row, updates)[k] == updates[k]
  {
    assert SegmentIdColumn !in AllowedFields;
  }

  /** Sending the same update twice leaves the row as sending it once. */
  lemma ApplyUpdatesIdempotent(row: Row, updates: map<string, Value>)
    ensures ApplyUpdates(ApplyUpdates(row, updates), updates) == ApplyUpdates(row, updates)
  {
  }

  /** After an update, get_segment on the same id returns the updated row. */
  lemma {:induction false} LookupAfterUpdate(t: Table, id: int, updates: map<string, Value>)
    requires FindSegment(t, id).Some?
    ensures var i := FindSegment(t, id).value;
      LookupSegment(t[i := ApplyUpdates(t[i], updates)], id) == Some(CleanDict(ApplyUpdates(t[i], updates)))
  {
    var i := FindSegment(t, id).value;
    var t' := t[i := ApplyUpdates(t[i], updates)];
    ApplyUpdatesFrame(t[i], updates, id);
    FindSegmentAt(t', id, i);
  }

  /** If row `i` is the first with the id, FindSegment returns `i`. */
  lemma FindSegmentAt(t: Table, id: int, i: nat)
    requires i < |t| && HasSegmentId(t[i], id)
    requires forall j :: 0 <= j < i ==> !HasSegmentId(t[j], id)
    ensures FindSegment(t, id) == Some(i)
  {
  }

  // ---------------------------------------------------------------------------
  // delete_segment on the table

  /** `df.drop(idx)`: the table without row `i`. */
  function RemoveAt(t: Table, i: nat): (r: Table)
    requires i < |t|
    ensures |r| == |t| - 1
    ensures multiset(r) + multiset{t[i]} == multiset(t)
  {
    assert t == t[..i] + [t[i]] + t[i + 1..];
    t[..i] + t[i + 1..]
  }

  /** Dropping a row keeps the rows before it and moves the rows after it up by one. */
  lemma RemoveAtShape(t: Table, i: nat)
    requires i < |t|
    ensures forall j :: 0 <= j < i ==> RemoveAt(t, i)[j] == t[j]
    ensures forall j :: i <= j < |t| - 1 ==> RemoveAt(t, i)[j] == t[j + 1]
  {
  }

  /** When segment ids are unique, after the delete no row carries the id any more. */
  lemma DeleteRemovesId(t: Table, id: int)
    requires FindSegment(t, id).Some?
    requires forall a, b :: 0 <= a < b < |t| && HasSegmentId(t[a], id) ==> !HasSegmentId(t[b], id)
    ensures LookupSegment(RemoveAt(t, FindSegment(t, id).value), id).None?
  {
    var i := FindSegment(t, id).value;
    var r := RemoveAt(t, i);
    RemoveAtShape(t, i);
    forall j | 0 <= j < |r| ensures !HasSegmentId(r[j], id) {
      if j >= i {
        assert r[j] == t[j + 1];
      }
    }
  }

  // ---------------------------------------------------------------------------
  // chunks_metadata.csv and get_chunk

  /** A row of chunks_metadata.csv, with the columns the reader types. */
  datatype MetaRow = MetaRow(chunkIdCell: int, filePathCell: string, startTimeCell: real, endTimeCell: real)

  /** The normalised record get_all_chunks returns for one metadata row. */
  datatype ChunkRecord = ChunkRecord(chunkId: int, filePath: string, startTime: real, endTime: real)

  /** Renames the columns "Chunk ID", "File Path", "Start Time (s)", "End Time (s)". */
  function Normalize(m: MetaRow): (c: ChunkRecord) {
    ChunkRecord(m.chunkIdCell, m.filePathCell, m.startTimeCell, m.endTimeCell)
  }

  /** The first record with the chunk id, or None. */
  function FindChunk(chunks: seq<ChunkRecord>, chunkId: int): (r: Option<ChunkRecord>)
    ensures r.None? <==> forall i :: 0 <= i < |chunks| ==> chunks[i].chunkId != chunkId
    ensures r.Some? ==> r.value.chunkId == chunkId
    ensures r.Some? ==>
      (exists i :: 0 <= i < |chunks| && chunks[i] == r.value && (forall j :: 0 <= j < i ==> chunks[j].chunkId != chunkId))
  {
    if chunks == [] then None
    else if chunks[0].chunkId == chunkId then Some(chunks[0])
    else
      var r := FindChunk(chunks[1..], chunkId);
      assert r.Some? ==>
        (exists i :: 0 <= i < |chunks| && chunks[i] == r.value && (forall j :: 0 <= j < i ==> chunks[j].chunkId != chunkId)) by {
        if r.Some? {
          var i :| 0 <= i < |chunks[1..]| && chunks[1..][i] == r.value &&
            (forall j :: 0 <= j < i ==> chunks[1..][j].chunkId != chunkId);
          assert chunks[i + 1] == r.value;
          assert forall j :: 0 <= j < i + 1 ==> chunks[j].chunkId != chunkId by {
            forall j | 0 <= j < i + 1 ensures chunks[j].chunkId != chunkId {
              if j > 0 { assert chunks[j] == chunks[1..][j - 1]; }
            }
          }
        }
      }
      r
  }
}
