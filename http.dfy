/**
 * The Range handling of `stream_audio` in backend/main.py. The header is
 * read with a simplified form of the byte-range syntax of section 14.1.2 of
 * RFC 9110, as the code does it: everything "bytes=" is removed, the rest is
 * split on "-", an empty first part means 0 and an empty second part means
 * the last byte. So "bytes=-N" is read as bytes 0..N (the RFC reads it as the
 * last N bytes), and an end at or past the file size is refused (the RFC
 * clamps it).
 */
module Http {
  import opened Wrappers
  import Decimal

  /** An HTTPException: status, detail and an optional Content-Range header. */
  datatype HttpError = HttpError(status: nat, detail: string, contentRange: Option<string>)

  /** The bytes `iterfile` asks for at most per read. */
  const ReadSize: nat := 8192

  const RangeUnitPrefix: string := "bytes="

  // ---------------------------------------------------------------------------
  // str.replace(pat, "") and str.split(sep)

  /** `s.replace(pat, "")`: removes the non-overlapping occurrences of `pat`, left to right. */
  function RemoveAll(s: string, pat: string): (r: string)
    requires pat != []
    ensures |r| <= |s|
    decreases |s|
  {
    if |s| < |pat| then s
    else if s[..|pat|] == pat then RemoveAll(s[|pat|..], pat)
    else [s[0]] + RemoveAll(s[1..], pat)
  }

  /** A string that never holds the first character of `pat` loses nothing. */
  lemma {:induction false} RemoveAllNone(s: string, pat: string)
    requires pat != []
    requires forall i :: 0 <= i < |s| ==> s[i] != pat[0]
    ensures RemoveAll(s, pat) == s
    decreases |s|
  {
    if |s| >= |pat| {
      assert s[..|pat|][0] == s[0];
      RemoveAllNone(s[1..], pat);
    }
  }

  /** A prefix free of the pattern's first character is kept whole; the removal goes on after it. */
  lemma {:induction false} RemoveAllCleanPrefix(s: string, rest: string, pat: string)
    requires pat != []
    requires forall i :: 0 <= i < |s| ==> s[i] != pat[0]
    ensures RemoveAll(s + rest, pat) == s + RemoveAll(rest, pat)
    decreases |s|
  {
    var whole := s + rest;
    if s == [] {
      assert whole == rest;
    } else if |whole| < |pat| {
      assert RemoveAll(rest, pat) == rest;
    } else {
      assert whole[..|pat|][0] == s[0];
      assert whole[..|pat|] != pat;
      assert RemoveAll(whole, pat) == [whole[0]] + RemoveAll(whole[1..], pat);
      assert whole[1..] == s[1..] + rest;
      RemoveAllCleanPrefix(s[1..], rest, pat);
      assert [s[0]] + s[1..] == s;
    }
  }

  /** The parts of `parts` with `sep` put back between them: the inverse of Split. */
  function Join(parts: seq<string>, sep: char): (s: string)
    requires |parts| >= 1
  {
    if |parts| == 1 then parts[0] else parts[0] + [sep] + Join(parts[1..], sep)
  }

  /** `s.split(sep)`: the maximal pieces of `s` free of `sep`; there is always at least one. */
  function Split(s: string, sep: char): (parts: seq<string>)
    ensures |parts| >= 1
    ensures forall i :: 0 <= i < |parts| ==> sep !in parts[i]
    ensures Join(parts, sep) == s
  {
    if s == [] then [""]
    else
      var rest := Split(s[1..], sep);
      if s[0] == sep then
        assert Join([""] + rest, sep) == [sep] + Join(rest, sep) by {
          assert ([""] + rest)[1..] == rest;
        }
        [""] + rest
      else
        var parts := [[s[0]] + rest[0]] + rest[1..];
        assert Join(parts, sep) == [s[0]] + Join(rest, sep) by {
          if |rest| > 1 {
            assert parts[1..] == rest[1..];
          }
        }
        parts
  }

  /** A string without the separator splits into itself alone. */
  lemma {:induction false} SplitNoSep(s: string, sep: char)
    requires sep !in s
    ensures Split(s, sep) == [s]
  {
    if s != [] {
      SplitNoSep(s[1..], sep);
    }
  }

  /** `(a + sep + b).split(sep) == [a, b]` when neither part holds the separator. */
  lemma {:induction false} SplitPair(a: string, b: string, sep: char)
    requires sep !in a && sep !in b
    ensures Split(a + [sep] + b, sep) == [a, b]
  {
    if a == [] {
      assert a + [sep] + b == [sep] + b;
      assert ([sep] + b)[1..] == b;
      SplitNoSep(b, sep);
    } else {
      assert (a + [sep] + b)[1..] == a[1..] + [sep] + b;
      SplitPair(a[1..], b, sep);
      assert [a[0]] + a[1..] == a;
    }
  }

  /** Pieces after a separator: `(a + sep + rest).split(sep) == [a] + rest.split(sep)`. */
  lemma {:induction false} SplitHead(a: string, rest: string, sep: char)
    requires sep !in a
    ensures Split(a + [sep] + rest, sep) == [a] + Split(rest, sep)
  {
    if a == [] {
      assert a + [sep] + rest == [sep] + rest;
      assert ([sep] + rest)[1..] == rest;
    } else {
      assert (a + [sep] + rest)[1..] == a[1..] + [sep] + rest;
      SplitHead(a[1..], rest, sep);
      assert [a[0]] + a[1..] == a;
    }
  }

  // ---------------------------------------------------------------------------
  // Parsing (lines 199-204) and validation (lines 207-214)

  /** The first and last byte a header asks for, before validation. */
  datatype ByteRange = ByteRange(first: int, last: int)

  /** `int(part) if part else default`, or None where int() raises ValueError. */
  function PartOr(part: string, default: int): (r: Option<int>)
    ensures part == "" ==> r == Some(default)
    ensures part != "" ==> (r.Some? <==> Decimal.IsDigits(part))
  {
    if part == "" then Some(default)
    else match Decimal.Parse(part)
      case None => None
      case Some(n) => Some(n)
  }

  /**
   * The range the code reads from a header, or None where it raises
   * ValueError (a part that is not a number) or IndexError (no second part).
   */
  function ParseRangeHeader(header: string, fileSize: nat): (r: Option<ByteRange>)
    ensures var parts := Split(RemoveAll(header, RangeUnitPrefix), '-');
      r.Some? <==> PartOr(parts[0], 0).Some? && |parts| >= 2 && PartOr(parts[1], fileSize - 1).Some?
    ensures var parts := Split(RemoveAll(header, RangeUnitPrefix), '-');
      r.Some? ==> r.value == ByteRange(PartOr(parts[0], 0).value, PartOr(parts[1], fileSize - 1).value)
    ensures r.Some? ==> r.value.first >= 0 && r.value.last >= -1
  {
    var parts := Split(RemoveAll(header, RangeUnitPrefix), '-');
    var first := PartOr(parts[0], 0);
    if first.None? || |parts| < 2 then None
    else
      var last := PartOr(parts[1], fileSize - 1);
      if last.None? then None else Some(ByteRange(first.value, last.value))
  }

  /** What a request with a Range header is answered with: status 206 and these headers and bytes. */
  datatype RangePlan = RangePlan(first: nat, last: nat, contentLength: nat, contentRange: string)

  function InvalidRange(): (e: HttpError) {
    HttpError(416, "Invalid Range header", None)
  }

  function NotSatisfiable(fileSize: nat): (e: HttpError) {
    HttpError(416, "Range not satisfiable", Some("bytes */" + Decimal.Show(fileSize)))
  }

  /** `"bytes {start}-{end}/{file_size}"`. */
  function ContentRange(first: nat, last: nat, fileSize: nat): (header: string) {
    "bytes " + Decimal.Show(first) + "-" + Decimal.Show(last) + "/" + Decimal.Show(fileSize)
  }

  /**
   * The answer to a Range header: the plan of a 206 response for a range
   * that lies within the file, and a 416 error otherwise.
   */
  function PlanRange(header: string, fileSize: nat): (r: Result<RangePlan, HttpError>)
    ensures r.Ok? <==> (ParseRangeHeader(header, fileSize).Some? &&
      0 <= ParseRangeHeader(header, fileSize).value.first <= ParseRangeHeader(header, fileSize).value.last < fileSize)
    ensures r.Ok? ==> Some(ByteRange(r.value.first, r.value.last)) == ParseRangeHeader(header, fileSize)
    ensures r.Ok? ==> r.value.first <= r.value.last < fileSize
    ensures r.Ok? ==> r.value.contentLength == r.value.last - r.value.first + 1 && 1 <= r.value.contentLength <= fileSize
    ensures r.Ok? ==> r.value.contentRange == ContentRange(r.value.first, r.value.last, fileSize)
    ensures r.Err? ==> r.error.status == 416
    ensures r.Err? ==> (r.error == InvalidRange() <==> ParseRangeHeader(header, fileSize).None?)
    ensures r.Err? && ParseRangeHeader(header, fileSize).Some? ==> r.error == NotSatisfiable(fileSize)
  {
    match ParseRangeHeader(header, fileSize)
    case None => Err(InvalidRange())
    case Some(ByteRange(first, last)) =>
      if first >= fileSize || last >= fileSize || first > last then Err(NotSatisfiable(fileSize))
      else Ok(RangePlan(first, last, last - first + 1, ContentRange(first, last, fileSize)))
  }

  /** The header a client sends for bytes `first..last`: "bytes=first-last". */
  function ClosedRangeHeader(first: nat, last: nat): (header: string) {
    RangeUnitPrefix + Decimal.Show(first) + "-" + Decimal.Show(last)
  }

  lemma DigitsHaveNoDash(n: nat)
    ensures '-' !in Decimal.Show(n)
    ensures forall i :: 0 <= i < |Decimal.Show(n)| ==> Decimal.Show(n)[i] != 'b'
  {
  }

  /** Removing "bytes=" from "bytes=" + rest leaves `rest` when rest holds no 'b'. */
  lemma StripPrefix(rest: string)
    requires forall i :: 0 <= i < |rest| ==> rest[i] != 'b'
    ensures RemoveAll(RangeUnitPrefix + rest, RangeUnitPrefix) == rest
  {
    var s := RangeUnitPrefix + rest;
    assert s[..|RangeUnitPrefix|] == RangeUnitPrefix;
    assert s[|RangeUnitPrefix|..] == rest;
    RemoveAllNone(rest, RangeUnitPrefix);
  }

  /** "bytes=a-b" is read back as the range a..b. */
  lemma ParseClosedRange(first: nat, last: nat, fileSize: nat)
    ensures ParseRangeHeader(ClosedRangeHeader(first, last), fileSize) == Some(ByteRange(first, last))
  {
    var a, b := Decimal.Show(first), Decimal.Show(last);
    DigitsHaveNoDash(first);
    DigitsHaveNoDash(last);
    assert ClosedRangeHeader(first, last) == RangeUnitPrefix + (a + "-" + b);
    StripPrefix(a + "-" + b);
    SplitPair(a, b, '-');
    Decimal.ParseShow(first);
    Decimal.ParseShow(last);
  }

  /** A client's "bytes=a-b" is served exactly when a <= b < file size, with that range. */
  lemma PlanClosedRange(first: nat, last: nat, fileSize: nat)
    ensures PlanRange(ClosedRangeHeader(first, last), fileSize).Ok? <==> first <= last < fileSize
    ensures PlanRange(ClosedRangeHeader(first, last), fileSize).Ok? ==>
      PlanRange(ClosedRangeHeader(first, last), fileSize).value == RangePlan(first, last, last - first + 1, ContentRange(first, last, fileSize))
    ensures !(first <= last < fileSize) ==> PlanRange(ClosedRangeHeader(first, last), fileSize) == Err(NotSatisfiable(fileSize))
  {
    ParseClosedRange(first, last, fileSize);
  }

  /** "bytes=a-" runs to the last byte of the file. */
  lemma ParseOpenEnded(first: nat, fileSize: nat)
    ensures ParseRangeHeader(RangeUnitPrefix + Decimal.Show(first) + "-", fileSize) == Some(ByteRange(first, fileSize - 1))
  {
    var a := Decimal.Show(first);
    DigitsHaveNoDash(first);
    assert RangeUnitPrefix + a + "-" == RangeUnitPrefix + (a + "-" + "");
    StripPrefix(a + "-" + "");
    SplitPair(a, "", '-');
    Decimal.ParseShow(first);
  }

  /** "bytes=-n" is read as bytes 0..n, not as the last n bytes. */
  lemma ParseSuffixForm(n: nat, fileSize: nat)
    ensures ParseRangeHeader(RangeUnitPrefix + "-" + Decimal.Show(n), fileSize) == Some(ByteRange(0, n))
  {
    var b := Decimal.Show(n);
    DigitsHaveNoDash(n);
    assert RangeUnitPrefix + "-" + b == RangeUnitPrefix + ("" + "-" + b);
    StripPrefix("" + "-" + b);
    SplitPair("", b, '-');
    Decimal.ParseShow(n);
  }

  /** "bytes=a" has no second part: the IndexError gives 416. */
  lemma ParseNoDash(first: nat, fileSize: nat)
    ensures ParseRangeHeader(RangeUnitPrefix + Decimal.Show(first), fileSize).None?
    ensures PlanRange(RangeUnitPrefix + Decimal.Show(first), fileSize) == Err(InvalidRange())
  {
    var a := Decimal.Show(first);
    DigitsHaveNoDash(first);
    StripPrefix(a);
    SplitNoSep(a, '-');
  }

  /** Parts after the second are ignored, whatever they hold: "bytes=a-b-anything" is read as a..b. */
  lemma ParseExtraParts(first: nat, last: nat, extra: string, fileSize: nat)
    ensures ParseRangeHeader(ClosedRangeHeader(first, last) + "-" + extra, fileSize) == Some(ByteRange(first, last))
  {
    var a, b := Decimal.Show(first), Decimal.Show(last);
    DigitsHaveNoDash(first);
    DigitsHaveNoDash(last);
    var clean := a + "-" + b + "-";
    var header := ClosedRangeHeader(first, last) + "-" + extra;
    assert header == RangeUnitPrefix + (clean + extra);
    assert forall i :: 0 <= i < |clean| ==> clean[i] != 'b';
    var stripped := RemoveAll(header, RangeUnitPrefix);
    assert stripped == RemoveAll(clean + extra, RangeUnitPrefix) by {
      assert header[..|RangeUnitPrefix|] == RangeUnitPrefix;
      assert header[|RangeUnitPrefix|..] == clean + extra;
    }
    var tail := RemoveAll(extra, RangeUnitPrefix);
    RemoveAllCleanPrefix(clean, extra, RangeUnitPrefix);
    assert stripped == a + "-" + (b + "-" + tail);
    SplitHead(a, b + "-" + tail, '-');
    SplitHead(b, tail, '-');
    Decimal.ParseShow(first);
    Decimal.ParseShow(last);
  }

  /** A part that is not a number makes int() raise: "bytes=x-b" with a non-numeric x is 416 "Invalid Range header". */
  lemma ParseNonNumericFirst(part: string, last: nat, fileSize: nat)
    requires part != "" && !Decimal.IsDigits(part)
    requires forall i :: 0 <= i < |part| ==> part[i] != 'b' && part[i] != '-'
    ensures ParseRangeHeader(RangeUnitPrefix + part + "-" + Decimal.Show(last), fileSize).None?
    ensures PlanRange(RangeUnitPrefix + part + "-" + Decimal.Show(last), fileSize) == Err(InvalidRange())
  {
    var b := Decimal.Show(last);
    DigitsHaveNoDash(last);
    assert RangeUnitPrefix + part + "-" + b == RangeUnitPrefix + (part + "-" + b);
    StripPrefix(part + "-" + b);
    SplitPair(part, b, '-');
  }

  // ---------------------------------------------------------------------------
  // iterfile (lines 216-226)

  function Min(a: int, b: int): (m: int) { if a <= b then a else b }

  /** The bytes of `file` from position `from` up to (not including) `to`, both clamped to its end. */
  function Slice(file: seq<bv8>, from: nat, to: nat): (bytes: seq<bv8>)
    requires from <= to
    ensures |bytes| <= to - from
  {
    file[Min(from, |file|)..Min(to, |file|)]
  }

  /** `f.seek(pos); f.read(n)`: at most `n` bytes, fewer at the end of the file. */
  function Read(file: seq<bv8>, pos: nat, n: nat): (data: seq<bv8>)
    ensures |data| <= n
    ensures |data| == 0 <==> n == 0 || pos >= |file|
  {
    Slice(file, pos, pos + n)
  }

  /** A read at the end of a slice extends it by the bytes read. */
  lemma SliceExtend(file: seq<bv8>, from: nat, pos: nat, n: nat)
    requires from <= pos
    ensures Slice(file, from, pos) + Read(file, pos, n) == Slice(file, from, pos + |Read(file, pos, n)|)
  {
    var data := Read(file, pos, n);
    if pos < |file| {
      assert |data| == Min(pos + n, |file|) - pos;
      assert Slice(file, from, pos + |data|) == file[Min(from, |file|)..Min(pos + n, |file|)];
      assert file[Min(from, |file|)..pos] + file[pos..Min(pos + n, |file|)] == file[Min(from, |file|)..Min(pos + n, |file|)];
    } else {
      assert data == [];
    }
  }

  /** The pieces joined in order: the body the client receives. */
  function Concat(pieces: seq<seq<bv8>>): (body: seq<bv8>) {
    if pieces == [] then [] else Concat(pieces[..|pieces| - 1]) + pieces[|pieces| - 1]
  }

  /**
   * The generator `iterfile`: from `start`, reads at most min(8192,
   * remaining) bytes per step until `contentLength` bytes are sent or a read
   * comes back empty. The body is the requested slice of the file, never
   * longer than `contentLength`.
   */
  method StreamRange(file: seq<bv8>, start: nat, contentLength: nat) returns (pieces: seq<seq<bv8>>)
    ensures forall i :: 0 <= i < |pieces| ==> 0 < |pieces[i]| <= ReadSize
    ensures Concat(pieces) == Slice(file, start, start + contentLength)
    ensures |Concat(pieces)| <= contentLength
  {
    var pos := start;
    var remaining: int := contentLength;
    pieces := [];
    while remaining > 0
      invariant 0 <= remaining <= contentLength
      invariant pos == start + (contentLength - remaining)
      invariant forall i :: 0 <= i < |pieces| ==> 0 < |pieces[i]| <= ReadSize
      invariant Concat(pieces) == Slice(file, start, pos)
      decreases remaining
    {
      var chunkSize := Min(ReadSize, remaining);
      var data := Read(file, pos, chunkSize);
      if |data| == 0 {
        break;
      }
      SliceExtend(file, start, pos, chunkSize);
      remaining := remaining - |data|;
      assert Concat(pieces + [data]) == Concat(pieces) + data by {
        assert (pieces + [data])[..|pieces|] == pieces;
      }
      pos := pos + |data|;
      pieces := pieces + [data];
    }
  }

  /** For a range within the file the body is exactly bytes first..last. */
  lemma StreamedBody(file: seq<bv8>, plan: RangePlan)
    requires plan.first <= plan.last < |file| && plan.contentLength == plan.last - plan.first + 1
    ensures Slice(file, plan.first, plan.first + plan.contentLength) == file[plan.first..plan.last + 1]
    ensures |file[plan.first..plan.last + 1]| == plan.contentLength
  {
  }
}
