/** The GeoIP reader of googlemap/ip2geo/__init__.py: an open database file
    with a cursor, the trailer scan run when it is opened, the trie search,
    the record decoder and the two public lookups. Each method reads the
    file as the original does, through seeks and reads, and is proved to
    compute the corresponding function of module GeoIPFormat. */
module GeoIP {
  import opened Wrappers
  import opened Bytes
  import opened GeoIPFormat

  /** The `whence` argument of a seek. */
  datatype Whence = SeekSet | SeekCur | SeekEnd

  /** The string scan of the record decoder: counts the bytes before the
      first NUL at or after `start`, and fails when it indexes past the end
      of the record buffer. */
  method ScanString(buf: seq<byte>, start: nat) returns (r: Result<nat, GeoIPError>)
    ensures r == StringLength(buf, start)
  {
    var length := 0;
    while true
      invariant start + length <= |buf| || length == 0
      invariant 0 !in buf[Min(start, |buf|)..Min(start + length, |buf|)]
      decreases |buf| - (start + length)
    {
      if start + length >= |buf| {
        StringLengthFindsNul(buf, start, 0);
        if start < |buf| {
          assert buf[start..] == buf[start..start + length];
        }
        return Failure(TruncatedRead);
      }
      if buf[start + length] == 0 {
        StringLengthFindsNul(buf, start, length);
        return Success(length);
      }
      assert buf[start..start + length + 1] == buf[start..start + length] + [buf[start + length]];
      length := length + 1;
    }
  }

  /** The decoder of one record buffer, field by field: the country index,
      region, city and postal code, latitude and longitude, and the DMA/area
      value where the edition and country call for it. */
  method ParseRecord(tables: Tables, databaseType: nat, recordBuf: seq<byte>) returns (r: Result<Record, GeoIPError>)
    ensures r == DecodeRecord(tables, databaseType, recordBuf)
  {
    if |recordBuf| == 0 {
      return Failure(TruncatedRead);
    }
    var c := recordBuf[0] as nat;
    if c >= |tables.countryCodes| || c >= |tables.countryCodes3| || c >= |tables.countryNames| {
      return Failure(UnknownCountry);
    }
    var strings :- ParseStrings(recordBuf);
    r := ParseNumbers(tables, databaseType, recordBuf, c, strings.region, strings.city, strings.postal, strings.next);
    StringsDecoded(tables, databaseType, recordBuf, strings);
  }

  /** The three string scans of the record decoder: region, city and
      postal code, each from the byte after the previous one's NUL. */
  method ParseStrings(recordBuf: seq<byte>) returns (r: Result<Strings, GeoIPError>)
    ensures r == ReadStrings(recordBuf)
  {
    var region :- ScanField(recordBuf, 1);
    var city :- ScanField(recordBuf, region.next);
    var postal :- ScanField(recordBuf, city.next);
    return Success(Strings(region.bytes, city.bytes, postal.bytes, postal.next));
  }

  /** One string of the record: its bytes up to the NUL, and the position
      after the NUL. */
  method ScanField(recordBuf: seq<byte>, recordBufPos: nat) returns (r: Result<Field, GeoIPError>)
    ensures r == ReadField(recordBuf, recordBufPos)
  {
    var strLength :- ScanString(recordBuf, recordBufPos);
    return Success(Field(recordBuf[recordBufPos..recordBufPos + strLength], recordBufPos + strLength + 1));
  }

  /** The numeric part of the record decoder, from `recordBufPos`. */
  method ParseNumbers(tables: Tables, databaseType: nat, recordBuf: seq<byte>, c: nat,
                      region: seq<byte>, city: seq<byte>, postal: seq<byte>, recordBufPos: nat)
    returns (r: Result<Record, GeoIPError>)
    requires c < |tables.countryCodes| && c < |tables.countryCodes3| && c < |tables.countryNames|
    ensures r == DecodeNumbers(tables, databaseType, recordBuf, c, region, city, postal, recordBufPos)
  {
    var at := recordBufPos;
    if at + FIXED_WIDTH > |recordBuf| {
      return Failure(TruncatedRead);
    }
    var latitude := ReadLittleEndian(recordBuf, at, FIXED_WIDTH);
    at := at + FIXED_WIDTH;
    if at + FIXED_WIDTH > |recordBuf| {
      return Failure(TruncatedRead);
    }
    var longitude := ReadLittleEndian(recordBuf, at, FIXED_WIDTH);
    at := at + FIXED_WIDTH;
    var countryCode := tables.countryCodes[c];
    var dmaCode: Option<nat>, areaCode: Option<nat>;
    if databaseType == CITY_EDITION_REV1 {
      if countryCode == "US" {
        if at + FIXED_WIDTH > |recordBuf| {
          return Failure(TruncatedRead);
        }
        var dmaAreaCombo := ReadLittleEndian(recordBuf, at, FIXED_WIDTH);
        dmaCode, areaCode := Some(dmaAreaCombo / 1000), Some(dmaAreaCombo % 1000);
      } else {
        dmaCode, areaCode := None, None;
      }
    } else {
      dmaCode, areaCode := Some(0), Some(0);
    }
    var regionName := Optional(region);
    r := Success(Record(
      countryCode, tables.countryCodes3[c], tables.countryNames[c],
      regionName, city, Optional(postal),
      latitude - COORDINATE_BIAS, longitude - COORDINATE_BIAS,
      dmaCode, areaCode,
      MetroCode(tables, dmaCode),
      TimeZoneName(tables, countryCode, regionName)));
  }

  /** An open database: the file's bytes, the file position, and what the
      trailer scan found. */
  class GeoIP {
    const data: seq<byte>
    var pos: nat
    var databaseType: nat
    var recordLength: nat
    var databaseSegments: Option<nat>

    /** The record length that node and record offsets are computed with:
        the trailer scan always sets the standard one. */
    predicate Valid()
      reads this
    {
      recordLength == STANDARD_RECORD_LENGTH
    }

    /** Opens the file at position 0; the trailer scan has not run, so no
        segment count is set. */
    constructor (data: seq<byte>)
      ensures this.data == data && pos == 0
      ensures databaseType == CITY_EDITION_REV1 && recordLength == STANDARD_RECORD_LENGTH
      ensures databaseSegments == None
    {
      this.data := data;
      pos := 0;
      databaseType := CITY_EDITION_REV1;
      recordLength := STANDARD_RECORD_LENGTH;
      databaseSegments := None;
    }

    /** A file seek: fails, leaving the position, when the target is
        before the start of the file; a target past the end is allowed. */
    method Seek(offset: int, whence: Whence) returns (ok: bool)
      modifies this`pos
      ensures var target := match whence
                            case SeekSet => offset
                            case SeekCur => old(pos) + offset
                            case SeekEnd => |data| + offset;
              && ok == (target >= 0)
              && pos == (if ok then target else old(pos))
    {
      var target := match whence
                    case SeekSet => offset
                    case SeekCur => pos + offset
                    case SeekEnd => |data| + offset;
      if target < 0 {
        return false;
      }
      pos := target;
      return true;
    }

    /** A file read: at most `n` bytes from the position, fewer at the end
        of the file; the position moves past what was read. */
    method Read(n: nat) returns (chunk: seq<byte>)
      modifies this`pos
      ensures chunk == Slice(data, old(pos), n)
      ensures pos == old(pos) + |chunk|
    {
      chunk := Slice(data, pos, n);
      pos := pos + |chunk|;
    }

    /** The part of the trailer scan after a delimiter: the edition byte,
        then for a City edition the segment count. */
    method ReadTrailerFields() returns (err: Option<GeoIPError>)
      modifies this`pos, this`databaseType, this`databaseSegments
      ensures var trailer := TrailerAt(data, old(pos));
              && (err.Some? <==> trailer.Failure?)
              && (err.Some? ==> err.value == trailer.error)
              && (err.None? ==>
                    && databaseType == trailer.value.databaseType
                    && databaseSegments == (if trailer.value.segments.Some? then trailer.value.segments
                                            else old(databaseSegments))
                    && pos == old(pos) + 1 + (if IsCityEdition(databaseType) then SEGMENT_RECORD_LENGTH else 0))
    {
      var typeByte := Read(1);
      if |typeByte| == 0 {
        return Some(TruncatedRead);
      }
      databaseType := typeByte[0] as nat;
      if IsCityEdition(databaseType) {
        var buf := Read(SEGMENT_RECORD_LENGTH);
        if |buf| < SEGMENT_RECORD_LENGTH {
          return Some(TruncatedRead);
        }
        var segments := ReadLittleEndian(buf, 0, SEGMENT_RECORD_LENGTH);
        assert buf[0..SEGMENT_RECORD_LENGTH] == buf;
        databaseSegments := Some(segments);
      }
      return None;
    }

    /** The trailer scan run when the file is opened: up to
        STRUCTURE_INFO_MAX_SIZE probes for the delimiter, from 3 bytes before
        the end backwards one byte at a time, then the edition byte and,
        for a City edition, the segment count. The file position is put
        back. A segment count is only assigned for a City edition. */
    method SetupSegments() returns (err: Option<GeoIPError>)
      modifies this`pos, this`databaseType, this`recordLength, this`databaseSegments
      ensures recordLength == STANDARD_RECORD_LENGTH
      ensures err.Some? <==> ScanTrailer(data).Failure?
      ensures err.Some? ==> err.value == ScanTrailer(data).error
      ensures err.None? ==>
                && databaseType == ScanTrailer(data).value.databaseType
                && databaseSegments == (if ScanTrailer(data).value.segments.Some?
                                        then ScanTrailer(data).value.segments
                                        else old(databaseSegments))
                && pos == old(pos)
    {
      databaseType := CITY_EDITION_REV1;
      recordLength := STANDARD_RECORD_LENGTH;
      var filepos := pos;
      ghost var scan := ScanTrailer(data);
      var ok := Seek(-3, SeekEnd);
      if !ok {
        return Some(InvalidSeek);
      }
      var i := 0;
      while i < STRUCTURE_INFO_MAX_SIZE
        invariant i <= STRUCTURE_INFO_MAX_SIZE
        invariant pos + 3 <= |data|
        invariant Probe(data, pos, STRUCTURE_INFO_MAX_SIZE - i) == scan
        invariant databaseType == CITY_EDITION_REV1 && recordLength == STANDARD_RECORD_LENGTH
        invariant databaseSegments == old(databaseSegments)
      {
        ghost var probeAt := pos;
        var delim := Read(3);
        assert delim == data[probeAt..probeAt + 3];
        if delim == DELIMITER {
          err := ReadTrailerFields();
          if err.None? {
            ok := Seek(filepos, SeekSet);
          }
          return err;
        }
        ok := Seek(-4, SeekCur);
        if !ok {
          return Some(InvalidSeek);
        }
        ProbeStep(data, probeAt, STRUCTURE_INFO_MAX_SIZE - i);
        i := i + 1;
      }
      ok := Seek(filepos, SeekSet);
      return None;
    }

    /** Reads trie node `offset` and decodes its two pointers, least
        significant byte first; None when the file ends inside the node. */
    method ReadNode(offset: nat) returns (x: Option<(nat, nat)>)
      requires Valid()
      modifies this`pos
      ensures var node := Slice(data, NodeStart(offset), 2 * STANDARD_RECORD_LENGTH);
              x == if |node| < 2 * STANDARD_RECORD_LENGTH then None
                   else Some((ChildPointer(node, false), ChildPointer(node, true)))
      ensures pos == NodeStart(offset) + |Slice(data, NodeStart(offset), 2 * STANDARD_RECORD_LENGTH)|
    {
      assert 2 * recordLength * offset == NodeStart(offset);
      var ok := Seek(2 * recordLength * offset, SeekSet);
      var buf := Read(2 * recordLength);
      if |buf| < 2 * recordLength {
        return None;
      }
      var x0 := ReadLittleEndian(buf, 0, recordLength);
      var x1 := ReadLittleEndian(buf, recordLength, recordLength);
      assert buf[0..recordLength] == buf[..STANDARD_RECORD_LENGTH];
      assert buf[recordLength..recordLength + recordLength] == buf[STANDARD_RECORD_LENGTH..];
      return Some((x0, x1));
    }

    /** One level of the trie search: reads node `offset` and looks at bit
        `depth`. Gives the outcome of the whole search when this level ends
        it (a terminal pointer, a short read or no segment count), else the
        node to visit next. */
    method VisitNode(ipnum: nat, offset: nat, depth: nat) returns (outcome: Option<Result<nat, GeoIPError>>, next: nat)
      requires Valid()
      modifies this`pos
      ensures var here := Descend(data, databaseSegments, ipnum, offset, depth + 1);
              && (outcome.Some? ==> outcome.value == PointerOf(here)
                                    && (here.Success? ==> here.value.depth == depth))
              && (outcome.None? ==> here == Descend(data, databaseSegments, ipnum, next, depth))
      ensures pos == NodeStart(offset) + |Slice(data, NodeStart(offset), 2 * STANDARD_RECORD_LENGTH)|
    {
      var node := ReadNode(offset);
      DescendNode(data, databaseSegments, ipnum, offset, depth + 1, Slice(data, NodeStart(offset), 2 * STANDARD_RECORD_LENGTH));
      if node.None? {
        return Some(Failure(TruncatedRead)), 0;
      }
      var (x0, x1) := node.value;
      if databaseSegments.None? {
        return Some(Failure(SegmentsUnset)), 0;
      }
      if Bit(ipnum, depth) {
        if x1 >= databaseSegments.value {
          return Some(Success(x1)), 0;
        }
        return None, x1;
      } else {
        if x0 >= databaseSegments.value {
          return Some(Success(x0)), 0;
        }
        return None, x0;
      }
    }

    /** The trie search: from node 0, reads one node per level, follows
        pointer 1 on a set address bit and pointer 0 on a clear one, and
        returns the first pointer at or above the segment count. At most
        32 nodes are read; a terminal pointer found at bit `depth` was the
        `32 - depth`-th node read. */
    method SeekCountry(ipnum: nat) returns (r: Result<nat, GeoIPError>, ghost nodesRead: nat)
      requires Valid()
      modifies this`pos
      ensures r == PointerOf(Search(data, databaseSegments, ipnum))
      ensures nodesRead <= 32
      ensures r.Success? ==> nodesRead == 32 - Search(data, databaseSegments, ipnum).value.depth
    {
      var offset: nat := 0;
      nodesRead := 0;
      ghost var search := Search(data, databaseSegments, ipnum);
      var depth: int := 31;
      while depth >= 0
        invariant -1 <= depth <= 31
        invariant nodesRead == 31 - depth
        invariant Valid()
        invariant Descend(data, databaseSegments, ipnum, offset, depth + 1) == search
      {
        var outcome, next := VisitNode(ipnum, offset, depth);
        nodesRead := nodesRead + 1;
        if outcome.Some? {
          return outcome.value, nodesRead;
        }
        offset := next;
        depth := depth - 1;
      }
      return Failure(TraversalFailed), nodesRead;
    }

    /** The record of an address: None when the search ends on the pointer
        equal to the segment count, else the record read at
        `pointer + (2 * recordLength - 1) * segments`. */
    method GetRecord(tables: Tables, ipnum: nat) returns (r: Result<Option<Record>, GeoIPError>)
      requires Valid()
      modifies this`pos
      ensures r == RecordFor(tables, data, databaseType, databaseSegments, ipnum)
    {
      var seekCountry, nodesRead := SeekCountry(ipnum);
      var pointer :- seekCountry;
      if pointer == databaseSegments.value {
        return Success(None);
      }
      var recordPointer := pointer + (2 * recordLength - 1) * databaseSegments.value;
      assert recordPointer == RecordOffset(pointer, databaseSegments.value);
      var ok := Seek(recordPointer, SeekSet);
      var recordBuf := Read(FULL_RECORD_LENGTH);
      var record :- ParseRecord(tables, databaseType, recordBuf);
      return Success(Some(record));
    }

    /** The location lookup: rejects a missing or zero address number and a
        database that is not a City edition before reading anything, then
        reads the record twice, for the longitude and for the latitude. */
    method IpAddressToLocation(tables: Tables, ipnum: Option<nat>) returns (r: Result<Location, GeoIPError>)
      requires Valid()
      modifies this`pos
      ensures r == LocationFor(tables, data, databaseType, databaseSegments, ipnum)
      ensures (ipnum.None? || ipnum == Some(0) || !IsCityEdition(databaseType)) ==> pos == old(pos)
    {
      if ipnum.None? || ipnum.value == 0 {
        return Failure(InvalidAddress);
      }
      if !IsCityEdition(databaseType) {
        return Failure(InvalidDatabaseType);
      }
      var first := GetRecord(tables, ipnum.value);
      var found :- first;
      if found.None? {
        return Failure(NoRecord);
      }
      var lng := found.value.longitude;
      var second := GetRecord(tables, ipnum.value);
      found :- second;
      if found.None? {
        return Failure(NoRecord);
      }
      var lat := found.value.latitude;
      return Success(Location(lng, lat));
    }

    /** The time-zone lookup: the same checks, then the record's time-zone
        name, or None when it is empty. */
    method IpAddressToTimezone(tables: Tables, ipnum: Option<nat>) returns (r: Result<Option<string>, GeoIPError>)
      requires Valid()
      modifies this`pos
      ensures r == TimeZoneFor(tables, data, databaseType, databaseSegments, ipnum)
      ensures (ipnum.None? || ipnum == Some(0) || !IsCityEdition(databaseType)) ==> pos == old(pos)
    {
      if ipnum.None? || ipnum.value == 0 {
        return Failure(InvalidAddress);
      }
      if !IsCityEdition(databaseType) {
        return Failure(InvalidDatabaseType);
      }
      var found := GetRecord(tables, ipnum.value);
      var record :- found;
      if record.None? {
        return Failure(NoRecord);
      }
      var tzName := record.value.timeZone;
      if tzName != "" {
        return Success(Some(tzName));
      }
      return Success(None);
    }
  }

  /** Opening a database: the file at position 0, then the trailer scan;
      a failed scan is an error of the opening itself. */
  method Open(data: seq<byte>) returns (r: Result<GeoIP, GeoIPError>)
    ensures ScanTrailer(data).Failure? ==> r == Failure(ScanTrailer(data).error)
    ensures ScanTrailer(data).Success? ==>
              && r.Success? && fresh(r.value)
              && r.value.data == data && r.value.pos == 0
              && r.value.databaseType == ScanTrailer(data).value.databaseType
              && r.value.databaseSegments == ScanTrailer(data).value.segments
              && r.value.recordLength == STANDARD_RECORD_LENGTH && r.value.Valid()
  {
    var db := new GeoIP(data);
    var err := db.SetupSegments();
    if err.Some? {
      return Failure(err.value);
    }
    return Success(db);
  }
}
