/**
  The record loader: reads a header row, checks it, then turns every data row
  into a `GeoRecord` until the end of the input or the first bad row.

  The CSV tokeniser is not modelled: the input is the sequence of results
  its successive `Read` calls return. Reading past the end of that sequence
  yields EOF, as a drained reader does.
 */
module Loader {
  import opened Wrappers
  import opened Geo

  /** What one call to the CSV reader's Read returns. */
  datatype ReadResult = Row(fields: seq<string>) | EOF | ReadFailure(msg: string)

  /** The errors the loader can return. */
  datatype LoadError =
    | ReadEOF                // io.EOF while reading the header: the input is empty
    | IOError(msg: string)   // any other read error, passed through unchanged
    | InvalidCSVFormat       // a header or a data row without exactly 3 fields
    | InvalidGeoHeader       // a 3-field header other than id,lat,lng
    | NumError(num: string)  // ParseFloat rejected this field

  /** The loader's two results: the records gathered so far and the error, if any. */
  datatype Loaded = Loaded(records: seq<GeoRecord>, err: Option<LoadError>)

  const Header: seq<string> := ["id", "lat", "lng"]

  /** The k-th read of the input (counting from 0). */
  function ReadAt(input: seq<ReadResult>, k: nat): (r: ReadResult)
    ensures k >= |input| ==> r == EOF
    ensures r.Row? ==> k < |input| && r == input[k]
  {
    if k < |input| then input[k] else EOF
  }

  /** The header checks, field count first and names second. */
  function CheckHeader(h: seq<string>): (r: Option<LoadError>)
    ensures r == None <==> h == Header
    ensures r == Some(InvalidCSVFormat) <==> |h| != 3
    ensures r.Some? ==> r == Some(InvalidCSVFormat) || r == Some(InvalidGeoHeader)
  {
    if |h| != 3 then Some(InvalidCSVFormat)
    else if h[0] != "id" || h[1] != "lat" || h[2] != "lng" then Some(InvalidGeoHeader)
    else None
  }

  /** The record built from one data row, or the error that row raises. */
  function ParseRow(fields: seq<string>, targetLat: real, targetLong: real, num: Numerics)
    : (r: Result<GeoRecord, LoadError>)
    ensures r.Success? <==>
      |fields| == 3 && num.parseFloat(fields[1]).Some? && num.parseFloat(fields[2]).Some?
    ensures |fields| != 3 ==> r == Failure(InvalidCSVFormat)
    // latitude is parsed before longitude
    ensures |fields| == 3 && num.parseFloat(fields[1]).None? ==> r == Failure(NumError(fields[1]))
    ensures |fields| == 3 && num.parseFloat(fields[1]).Some? && num.parseFloat(fields[2]).None?
      ==> r == Failure(NumError(fields[2]))
    ensures r.Success? ==>
      && r.value.id == fields[0]
      && r.value.lat == num.toRadians(num.parseFloat(fields[1]).value)
      && r.value.long == num.toRadians(num.parseFloat(fields[2]).value)
      && Consistent(r.value, num, targetLat, targetLong)
  {
    if |fields| != 3 then Failure(InvalidCSVFormat)
    else
      match num.parseFloat(fields[1])
      case None => Failure(NumError(fields[1]))
      case Some(lat) =>
        match num.parseFloat(fields[2])
        case None => Failure(NumError(fields[2]))
        case Some(long) =>
          var latRad := num.toRadians(lat);
          var longRad := num.toRadians(long);
          Success(GeoRecord(fields[0], latRad, longRad,
                            num.greatCircleDistance(latRad, longRad, targetLat, targetLong)))
  }

  /** A read that the data loop turns into a record. */
  predicate ValidRow(rr: ReadResult, targetLat: real, targetLong: real, num: Numerics)
  {
    rr.Row? && ParseRow(rr.fields, targetLat, targetLong, num).Success?
  }

  function RecordOf(rr: ReadResult, targetLat: real, targetLong: real, num: Numerics): GeoRecord
    requires ValidRow(rr, targetLat, targetLong, num)
  {
    ParseRow(rr.fields, targetLat, targetLong, num).value
  }

  /** The error a read that is neither EOF nor a valid row stops the loop with. */
  function RowError(rr: ReadResult, targetLat: real, targetLong: real, num: Numerics): LoadError
    requires !rr.EOF? && !ValidRow(rr, targetLat, targetLong, num)
  {
    match rr
    case ReadFailure(m) => IOError(m)
    case Row(f) => ParseRow(f, targetLat, targetLong, num).error
  }

  /** The data loop, from the k-th read on. */
  function RowsFrom(input: seq<ReadResult>, k: nat, targetLat: real, targetLong: real, num: Numerics)
    : (r: Loaded)
    decreases |input| - k
    ensures forall i :: 0 <= i < |r.records| ==> Consistent(r.records[i], num, targetLat, targetLong)
    // the data loop never reports the end of input, nor a header error
    ensures r.err.Some? ==> r.err.value != ReadEOF && r.err.value != InvalidGeoHeader
  {
    match ReadAt(input, k)
    case EOF => Loaded([], None)
    case ReadFailure(m) => Loaded([], Some(IOError(m)))
    case Row(f) =>
      match ParseRow(f, targetLat, targetLong, num)
      case Failure(e) => Loaded([], Some(e))
      case Success(rec) =>
        var rest := RowsFrom(input, k + 1, targetLat, targetLong, num);
        Loaded([rec] + rest.records, rest.err)
  }

  /** What distanceWithCSVReader returns for a given input. */
  function Load(input: seq<ReadResult>, targetLat: real, targetLong: real, num: Numerics): (r: Loaded)
    // a failed header read returns that error and no records
    ensures ReadAt(input, 0) == EOF ==> r == Loaded([], Some(ReadEOF))
    ensures ReadAt(input, 0).ReadFailure? ==> r == Loaded([], Some(IOError(ReadAt(input, 0).msg)))
    // the field count is checked before the names
    ensures ReadAt(input, 0).Row? && |ReadAt(input, 0).fields| != 3 ==> r == Loaded([], Some(InvalidCSVFormat))
    ensures ReadAt(input, 0).Row? && |ReadAt(input, 0).fields| == 3 && ReadAt(input, 0).fields != Header
      ==> r == Loaded([], Some(InvalidGeoHeader))
    ensures forall i :: 0 <= i < |r.records| ==> Consistent(r.records[i], num, targetLat, targetLong)
  {
    match ReadAt(input, 0)
    case EOF => Loaded([], Some(ReadEOF))
    case ReadFailure(m) => Loaded([], Some(IOError(m)))
    case Row(h) =>
      match CheckHeader(h)
      case Some(e) => Loaded([], Some(e))
      case None => RowsFrom(input, 1, targetLat, targetLong, num)
  }

  /** distanceWithCSVReader: the header checks, then the data loop. */
  method DistanceWithCSVReader(input: seq<ReadResult>, targetLat: real, targetLong: real, num: Numerics)
    returns (records: seq<GeoRecord>, err: Option<LoadError>)
    ensures Loaded(records, err) == Load(input, targetLat, targetLong, num)
  {
    var header := ReadAt(input, 0);
    if header.EOF? {
      return [], Some(ReadEOF);
    }
    if header.ReadFailure? {
      return [], Some(IOError(header.msg));
    }
    var h := header.fields;
    if |h| != 3 {
      return [], Some(InvalidCSVFormat);
    }
    if h[0] != "id" || h[1] != "lat" || h[2] != "lng" {
      return [], Some(InvalidGeoHeader);
    }

    records := [];
    var pos := 1;
    while true
      invariant 1 <= pos
      invariant RowsFrom(input, 1, targetLat, targetLong, num)
             == Loaded(records + RowsFrom(input, pos, targetLat, targetLong, num).records,
                       RowsFrom(input, pos, targetLat, targetLong, num).err)
      decreases |input| - pos
    {
      var line := ReadAt(input, pos);
      if line.EOF? {
        break;
      }
      if line.ReadFailure? {
        return records, Some(IOError(line.msg));
      }
      var fields := line.fields;
      if |fields| != 3 {
        return records, Some(InvalidCSVFormat);
      }
      var lat := num.parseFloat(fields[1]);
      if lat.None? {
        return records, Some(NumError(fields[1]));
      }
      var long := num.parseFloat(fields[2]);
      if long.None? {
        return records, Some(NumError(fields[2]));
      }
      var latRad := num.toRadians(lat.value);
      var longRad := num.toRadians(long.value);
      var record := GeoRecord(fields[0], latRad, longRad,
                              num.greatCircleDistance(latRad, longRad, targetLat, targetLong));
      ghost var rest := RowsFrom(input, pos + 1, targetLat, targetLong, num);
      assert records + ([record] + rest.records) == (records + [record]) + rest.records;
      records := records + [record];
      pos := pos + 1;
    }
    err := None;
  }

  /** Over a run of n valid rows starting at read k, the loop emits exactly
      their records, in order, and then continues as it would from read k + n. */
  lemma {:induction false} RowsFromSplit(input: seq<ReadResult>, k: nat, n: nat,
                                         targetLat: real, targetLong: real, num: Numerics)
    requires forall i :: k <= i < k + n ==> ValidRow(ReadAt(input, i), targetLat, targetLong, num)
    ensures var whole, rest := RowsFrom(input, k, targetLat, targetLong, num),
                               RowsFrom(input, k + n, targetLat, targetLong, num);
      && whole.err == rest.err
      && |whole.records| == n + |rest.records|
      && whole.records[n..] == rest.records
      && forall i :: 0 <= i < n ==> whole.records[i] == RecordOf(ReadAt(input, k + i), targetLat, targetLong, num)
    decreases n
  {
    if n > 0 {
      assert ValidRow(ReadAt(input, k), targetLat, targetLong, num);
      RowsFromSplit(input, k + 1, n - 1, targetLat, targetLong, num);
      var whole := RowsFrom(input, k, targetLat, targetLong, num);
      var next := RowsFrom(input, k + 1, targetLat, targetLong, num);
      assert whole.records == [RecordOf(ReadAt(input, k), targetLat, targetLong, num)] + next.records;
      forall i | 1 <= i < n
        ensures whole.records[i] == RecordOf(ReadAt(input, k + i), targetLat, targetLong, num)
      {
        assert whole.records[i] == next.records[i - 1];
        assert (k + 1) + (i - 1) == k + i;
      }
    }
  }

  /** A valid header followed by n valid rows and then a bad row: the loader
      stops there and returns exactly the n earlier records with that row's error. */
  lemma StopsAtFirstBadRow(input: seq<ReadResult>, n: nat, targetLat: real, targetLong: real, num: Numerics)
    requires ReadAt(input, 0) == Row(Header)
    requires forall i :: 1 <= i <= n ==> ValidRow(ReadAt(input, i), targetLat, targetLong, num)
    requires !ReadAt(input, n + 1).EOF? && !ValidRow(ReadAt(input, n + 1), targetLat, targetLong, num)
    ensures var r := Load(input, targetLat, targetLong, num);
      && r.err == Some(RowError(ReadAt(input, n + 1), targetLat, targetLong, num))
      && |r.records| == n
      && forall i :: 0 <= i < n ==> r.records[i] == RecordOf(ReadAt(input, i + 1), targetLat, targetLong, num)
  {
    RowsFromSplit(input, 1, n, targetLat, targetLong, num);
    var rest := RowsFrom(input, n + 1, targetLat, targetLong, num);
    assert rest == Loaded([], Some(RowError(ReadAt(input, n + 1), targetLat, targetLong, num)));
  }

  /** A valid header, n valid rows and then the end of input: no error and one
      record per row, in input order, each keeping its row's id unchanged. */
  lemma AllRowsLoaded(input: seq<ReadResult>, n: nat, targetLat: real, targetLong: real, num: Numerics)
    requires ReadAt(input, 0) == Row(Header)
    requires forall i :: 1 <= i <= n ==> ValidRow(ReadAt(input, i), targetLat, targetLong, num)
    requires ReadAt(input, n + 1) == EOF
    ensures var r := Load(input, targetLat, targetLong, num);
      && r.err == None
      && |r.records| == n
      && forall i :: 0 <= i < n ==>
           r.records[i] == RecordOf(ReadAt(input, i + 1), targetLat, targetLong, num)
           && r.records[i].id == ReadAt(input, i + 1).fields[0]
  {
    RowsFromSplit(input, 1, n, targetLat, targetLong, num);
  }

  /** A header that fails a check is the only read the loader looks at:
      whatever follows it, the result is the same. */
  lemma HeaderRejectionReadsNoRow(h: seq<string>, rows1: seq<ReadResult>, rows2: seq<ReadResult>,
                                  targetLat: real, targetLong: real, num: Numerics)
    requires h != Header
    ensures Load([Row(h)] + rows1, targetLat, targetLong, num)
         == Load([Row(h)] + rows2, targetLat, targetLong, num)
    ensures Load([Row(h)] + rows1, targetLat, targetLong, num).records == []
  {
  }
}
