/** The legacy GeoIP City database format, as the decoder in
    googlemap/ip2geo/__init__.py reads it: a binary trie over the 32 bits of
    an IPv4 number, a region of variable-length records after it, and a
    trailer near the end of the file naming the edition and the number of
    trie segments. Everything here is a pure function of the file's bytes;
    the class in module GeoIP reads the same bytes step by step and is
    proved to compute these functions. */
module GeoIPFormat {
  import opened Wrappers
  import opened Bytes

  // The constants of the legacy GeoIP format that the decoder uses.
  const CITY_EDITION_REV1: nat := 2
  const CITY_EDITION_REV0: nat := 6
  /** Number of trailer probes before giving up. */
  const STRUCTURE_INFO_MAX_SIZE: nat := 20
  /** Width of the segment count in the trailer. */
  const SEGMENT_RECORD_LENGTH: nat := 3
  /** Width of one trie pointer. */
  const STANDARD_RECORD_LENGTH: nat := 3
  /** Number of bytes read for one record. */
  const FULL_RECORD_LENGTH: nat := 50
  const DELIMITER: seq<byte> := [255, 255, 255]
  /** Coordinates are stored as `(degrees + 180) * 10000`; decoded values
      are kept in ten-thousandths of a degree. */
  const COORDINATE_BIAS: int := 1800000
  /** Width of a latitude, a longitude and the combined DMA/area value. */
  const FIXED_WIDTH: nat := 3

  /** The exceptions the decoder raises. */
  datatype GeoIPError =
    | InvalidSeek          // seek before the start of the file (IOError)
    | TruncatedRead        // a byte indexed past what a read returned (IndexError, or ord('') on an empty read)
    | SegmentsUnset        // the trailer gave no segment count (AttributeError on _databaseSegments)
    | TraversalFailed      // 32 trie levels without a terminal pointer
    | UnknownCountry       // country index past the end of the country tables (IndexError)
    | InvalidAddress       // falsy address number (ValueError turned into GeoIPError)
    | InvalidDatabaseType  // not a City edition (GeoIPError)
    | NoRecord             // the address has no record; the lookup subscripts None (TypeError)

  predicate IsCityEdition(t: nat)
  {
    t == CITY_EDITION_REV0 || t == CITY_EDITION_REV1
  }

  // ---------------------------------------------------------------------
  // Trailer scan

  /** What the trailer scan leaves in `_databaseType` and
      `_databaseSegments` (None: never assigned). */
  datatype Trailer = Trailer(databaseType: nat, segments: Option<nat>)

  /** The values kept when no delimiter is found. */
  const DEFAULT_TRAILER := Trailer(CITY_EDITION_REV1, None)

  predicate DelimiterAt(data: seq<byte>, p: int)
  {
    0 <= p && p + 3 <= |data| && data[p..p + 3] == DELIMITER
  }

  /** The trailer read just after a delimiter that ends at `q`: the edition
      byte, then for a City edition the segment count. */
  function TrailerAt(data: seq<byte>, q: nat): (r: Result<Trailer, GeoIPError>)
    ensures r.Failure? ==> r.error == TruncatedRead
    ensures r.Success? ==> (r.value.segments.Some? <==> IsCityEdition(r.value.databaseType))
  {
    if q >= |data| then Failure(TruncatedRead)
    else
      var t := data[q] as nat;
      if IsCityEdition(t) then
        var buf := Slice(data, q + 1, SEGMENT_RECORD_LENGTH);
        if |buf| < SEGMENT_RECORD_LENGTH then Failure(TruncatedRead)
        else Success(Trailer(t, Some(LittleEndian(buf))))
      else Success(Trailer(t, None))
  }

  /** The scan from probe position `p` with `tries` probes left: a failed
      probe reads 3 bytes and seeks back 4, so the next probe is at `p - 1`,
      and that seek fails when `p` is 0. */
  function Probe(data: seq<byte>, p: nat, tries: nat): (r: Result<Trailer, GeoIPError>)
    requires p + 3 <= |data|
    ensures r.Failure? ==> r.error == InvalidSeek || r.error == TruncatedRead
    ensures r.Success? && r.value.segments.Some? ==> IsCityEdition(r.value.databaseType)
    decreases tries
  {
    if tries == 0 then Success(DEFAULT_TRAILER)
    else if data[p..p + 3] == DELIMITER then TrailerAt(data, p + 3)
    else if p == 0 then Failure(InvalidSeek)
    else Probe(data, p - 1, tries - 1)
  }

  /** A failed probe away from the start of the file moves one byte back
      and uses up one try. */
  lemma ProbeStep(data: seq<byte>, p: nat, tries: nat)
    requires 0 < p && p + 3 <= |data| && 0 < tries && data[p..p + 3] != DELIMITER
    ensures Probe(data, p, tries) == Probe(data, p - 1, tries - 1)
  {
  }

  /** The trailer scan: the first probe is at `size - 3`. */
  function ScanTrailer(data: seq<byte>): (r: Result<Trailer, GeoIPError>)
    ensures r.Failure? ==> r.error == InvalidSeek || r.error == TruncatedRead
    ensures r.Success? && r.value.segments.Some? ==> IsCityEdition(r.value.databaseType)
  {
    if |data| < 3 then Failure(InvalidSeek)
    else Probe(data, |data| - 3, STRUCTURE_INFO_MAX_SIZE)
  }

  lemma {:induction false} ProbeFound(data: seq<byte>, p: nat, tries: nat, d: nat)
    requires p + 3 <= |data| && d <= p && p - d < tries
    requires DelimiterAt(data, d)
    requires forall q :: d < q <= p ==> !DelimiterAt(data, q)
    ensures Probe(data, p, tries) == TrailerAt(data, d + 3)
  {
    if p > d {
      assert !DelimiterAt(data, p);
      ProbeFound(data, p - 1, tries - 1, d);
    }
  }

  lemma {:induction false} ProbeNotFound(data: seq<byte>, p: nat, tries: nat)
    requires p + 3 <= |data|
    requires forall q :: p - tries < q <= p ==> !DelimiterAt(data, q)
    ensures Probe(data, p, tries)
         == if p >= tries then Success(DEFAULT_TRAILER) else Failure(InvalidSeek)
  {
    if tries > 0 {
      assert !DelimiterAt(data, p);
      if p > 0 {
        ProbeNotFound(data, p - 1, tries - 1);
      }
    }
  }

  /** The scan finds the delimiter nearest the end among the
      STRUCTURE_INFO_MAX_SIZE positions `size - 3`, `size - 4`, ... and reads
      the trailer after it. */
  lemma ScanTrailerFound(data: seq<byte>, d: nat)
    requires DelimiterAt(data, d)
    requires |data| - 3 - d < STRUCTURE_INFO_MAX_SIZE
    requires forall q :: d < q <= |data| - 3 ==> !DelimiterAt(data, q)
    ensures ScanTrailer(data) == TrailerAt(data, d + 3)
  {
    ProbeFound(data, |data| - 3, STRUCTURE_INFO_MAX_SIZE, d);
  }

  /** Without a delimiter in the probed window the scan keeps the default
      edition and no segment count, unless the window reaches the start of
      the file, where the backward seek fails. */
  lemma ScanTrailerNotFound(data: seq<byte>)
    requires forall q :: |data| - 3 - STRUCTURE_INFO_MAX_SIZE < q <= |data| - 3 ==> !DelimiterAt(data, q)
    ensures ScanTrailer(data)
         == if |data| >= STRUCTURE_INFO_MAX_SIZE + 3 then Success(DEFAULT_TRAILER) else Failure(InvalidSeek)
  {
    if |data| >= 3 {
      ProbeNotFound(data, |data| - 3, STRUCTURE_INFO_MAX_SIZE);
    }
  }

  // ---------------------------------------------------------------------
  // Trie search

  function Pow2(k: nat): (r: nat)
    ensures r > 0
  {
    if k == 0 then 1 else 2 * Pow2(k - 1)
  }

  /** Bit `k` of the address number, `ipnum & (1 << k) != 0`. */
  predicate Bit(ipnum: nat, k: nat)
  {
    (ipnum / Pow2(k)) % 2 == 1
  }

  /** Byte offset of trie node `n`: each node is two pointers. */
  function NodeStart(n: nat): nat
  {
    2 * STANDARD_RECORD_LENGTH * n
  }

  /** Pointer 1 of a node when `bit` is set, else pointer 0; each is
      STANDARD_RECORD_LENGTH bytes, little-endian. */
  function ChildPointer(node: seq<byte>, bit: bool): nat
    requires |node| == 2 * STANDARD_RECORD_LENGTH
  {
    if bit then LittleEndian(node[STANDARD_RECORD_LENGTH..])
    else LittleEndian(node[..STANDARD_RECORD_LENGTH])
  }

  /** A terminal pointer and the bit index at which it was taken; the
      address's bits above `depth` are the network prefix that led to it. */
  datatype Leaf = Leaf(pointer: nat, depth: nat)

  /** The search from node `offset` with `levels` bits left to look at
      (bits `levels - 1` down to 0). Pointer 0 of a node is followed on a
      clear bit, pointer 1 on a set bit; a pointer at or above the segment
      count ends the search. */
  function Descend(data: seq<byte>, segments: Option<nat>, ipnum: nat, offset: nat, levels: nat)
    : Result<Leaf, GeoIPError>
    decreases levels
  {
    if levels == 0 then Failure(TraversalFailed)
    else
      var node := Slice(data, NodeStart(offset), 2 * STANDARD_RECORD_LENGTH);
      if |node| < 2 * STANDARD_RECORD_LENGTH then Failure(TruncatedRead)
      else if segments.None? then Failure(SegmentsUnset)
      else
        var next := ChildPointer(node, Bit(ipnum, levels - 1));
        if next >= segments.value then Success(Leaf(next, levels - 1))
        else Descend(data, segments, ipnum, next, levels - 1)
  }

  /** A search that succeeds ends on a pointer at or above the segment
      count, at a bit below the levels it started with; the only ways it
      fails are running out of levels, a short node read and a missing
      segment count. */
  lemma {:induction false} DescendResult(data: seq<byte>, segments: Option<nat>, ipnum: nat, offset: nat, levels: nat)
    ensures var r := Descend(data, segments, ipnum, offset, levels);
            && (r.Success? ==> segments.Some? && r.value.pointer >= segments.value && r.value.depth < levels)
            && (r.Failure? ==> r.error == TraversalFailed || r.error == TruncatedRead || r.error == SegmentsUnset)
    decreases levels
  {
    if levels > 0 {
      var node := Slice(data, NodeStart(offset), 2 * STANDARD_RECORD_LENGTH);
      if |node| == 2 * STANDARD_RECORD_LENGTH && segments.Some? {
        var next := ChildPointer(node, Bit(ipnum, levels - 1));
        if next < segments.value {
          DescendResult(data, segments, ipnum, next, levels - 1);
        }
      }
    }
  }

  /** One level of the search, given the node read at `offset`. */
  lemma DescendNode(data: seq<byte>, segments: Option<nat>, ipnum: nat, offset: nat, levels: nat, node: seq<byte>)
    requires levels > 0 && node == Slice(data, NodeStart(offset), 2 * STANDARD_RECORD_LENGTH)
    ensures |node| < 2 * STANDARD_RECORD_LENGTH ==> Descend(data, segments, ipnum, offset, levels) == Failure(TruncatedRead)
    ensures |node| == 2 * STANDARD_RECORD_LENGTH && segments.None? ==>
              Descend(data, segments, ipnum, offset, levels) == Failure(SegmentsUnset)
    ensures |node| == 2 * STANDARD_RECORD_LENGTH && segments.Some? ==>
              var next := ChildPointer(node, Bit(ipnum, levels - 1));
              Descend(data, segments, ipnum, offset, levels)
              == if next >= segments.value then Success(Leaf(next, levels - 1))
                 else Descend(data, segments, ipnum, next, levels - 1)
  {
  }

  /** The search for an address, from the root over all 32 bits. */
  function Search(data: seq<byte>, segments: Option<nat>, ipnum: nat): Result<Leaf, GeoIPError>
  {
    Descend(data, segments, ipnum, 0, 32)
  }

  function PointerOf(r: Result<Leaf, GeoIPError>): Result<nat, GeoIPError>
  {
    match r
    case Success(leaf) => Success(leaf.pointer)
    case Failure(e) => Failure(e)
  }

  /** Addresses that agree on the bits the search looked at reach the same
      leaf: the trie maps whole networks, not single addresses. */
  lemma {:induction false} SamePrefixSameLeaf(data: seq<byte>, segments: Option<nat>, a: nat, b: nat, offset: nat, levels: nat, leaf: Leaf)
    requires Descend(data, segments, a, offset, levels) == Success(leaf)
    requires forall k :: leaf.depth <= k < levels ==> Bit(a, k) == Bit(b, k)
    ensures Descend(data, segments, b, offset, levels) == Success(leaf)
    decreases levels
  {
    DescendResult(data, segments, a, offset, levels);
    assert Bit(a, levels - 1) == Bit(b, levels - 1);
    var next := ChildPointer(Slice(data, NodeStart(offset), 2 * STANDARD_RECORD_LENGTH), Bit(a, levels - 1));
    if next < segments.value {
      SamePrefixSameLeaf(data, segments, a, b, next, levels - 1, leaf);
    }
  }

  // ---------------------------------------------------------------------
  // Records

  /** The constant tables and the time-zone function the decoder consults:
      country codes, 3-letter codes and names indexed by the record's first
      byte, DMA code to metro name, and (country code, region) to a
      time-zone name. */
  datatype Tables = Tables(
    countryCodes: seq<string>,
    countryCodes3: seq<string>,
    countryNames: seq<string>,
    dmaMap: map<nat, string>,
    timeZone: (string, Option<seq<byte>>) -> Option<string>)

  /** The decoded record. `regionName` and `postalCode` are None where the
      record dict has no such key or holds None; coordinates are in
      ten-thousandths of a degree. */
  datatype Record = Record(
    countryCode: string,
    countryCode3: string,
    countryName: string,
    regionName: Option<seq<byte>>,
    city: seq<byte>,
    postalCode: Option<seq<byte>>,
    latitude: int,
    longitude: int,
    dmaCode: Option<nat>,
    areaCode: Option<nat>,
    metroCode: string,
    timeZone: string)

  /** The number of bytes before the first NUL at or after `pos`, counted
      as the decoder's `str_length` loop counts them. */
  function StringLength(buf: seq<byte>, pos: nat): (r: Result<nat, GeoIPError>)
    ensures r.Success? ==> pos + r.value < |buf|
    ensures r.Failure? ==> r.error == TruncatedRead
    decreases |buf| - pos
  {
    if pos >= |buf| then Failure(TruncatedRead)
    else if buf[pos] == 0 then Success(0)
    else
      var n :- StringLength(buf, pos + 1);
      Success(n + 1)
  }


  /** The string length is the distance to the first NUL, and the read fails
      exactly when there is no NUL at or after `pos`. */
  lemma {:induction false} StringLengthFindsNul(buf: seq<byte>, pos: nat, n: nat)
    ensures StringLength(buf, pos) == Success(n)
        <==> (pos + n < |buf| && buf[pos + n] == 0 && 0 !in buf[pos..pos + n])
    ensures StringLength(buf, pos).Failure? <==> (pos >= |buf| || 0 !in buf[pos..])
    decreases |buf| - pos
  {
    if pos < |buf| {
      assert buf[pos..] == [buf[pos]] + buf[pos + 1..];
      if buf[pos] != 0 {
        StringLengthFindsNul(buf, pos + 1, if n == 0 then 0 else n - 1);
        if 0 < n && pos + n <= |buf| {
          assert buf[pos..pos + n] == [buf[pos]] + buf[pos + 1..pos + n];
        }
      } else if 0 < n && pos + n <= |buf| {
        assert buf[pos..pos + n][0] == 0;
      }
    }
  }


  /** The 3-byte little-endian value at `pos`. */
  function Fixed(buf: seq<byte>, pos: nat): (r: Result<nat, GeoIPError>)
    ensures r.Success? ==> r.value < Pow256(FIXED_WIDTH)
    ensures r.Failure? ==> r.error == TruncatedRead
  {
    if pos + FIXED_WIDTH <= |buf| then
      LittleEndianBound(buf[pos..pos + FIXED_WIDTH]);
      Success(LittleEndian(buf[pos..pos + FIXED_WIDTH]))
    else Failure(TruncatedRead)
  }

  /** DMA and area codes: on City Rev1 a US record carries a combined value
      `dma * 1000 + area`; a non-US Rev1 record has neither; any other edition
      gets 0 for both. */
  function DmaArea(buf: seq<byte>, pos: nat, databaseType: nat, countryCode: string)
    : (r: Result<(Option<nat>, Option<nat>), GeoIPError>)
    ensures r.Failure? ==> r.error == TruncatedRead
    ensures r.Success? ==> (r.value.0.Some? <==> r.value.1.Some?)
    ensures r.Success? && r.value.1.Some? ==> r.value.1.value < 1000
  {
    if databaseType == CITY_EDITION_REV1 then
      if countryCode == "US" then
        var combo :- Fixed(buf, pos);
        Success((Some(combo / 1000), Some(combo % 1000)))
      else Success((None, None))
    else Success((Some(0), Some(0)))
  }

  function MetroCode(tables: Tables, dmaCode: Option<nat>): string
  {
    if dmaCode.Some? && dmaCode.value in tables.dmaMap then tables.dmaMap[dmaCode.value] else ""
  }

  function TimeZoneName(tables: Tables, countryCode: string, regionName: Option<seq<byte>>): string
  {
    match tables.timeZone(countryCode, regionName)
    case Some(name) => name
    case None => ""
  }

  function Optional(s: seq<byte>): Option<seq<byte>>
  {
    if s == [] then None else Some(s)
  }

  /** A string field and the position after its NUL. */
  datatype Field = Field(bytes: seq<byte>, next: nat)

  /** The NUL-terminated string at `pos`. */
  function ReadField(buf: seq<byte>, pos: nat): (r: Result<Field, GeoIPError>)
    ensures r.Failure? ==> r.error == TruncatedRead
  {
    var n :- StringLength(buf, pos);
    Success(Field(buf[pos..pos + n], pos + n + 1))
  }

  /** The three strings of a record and the position after the last NUL. */
  datatype Strings = Strings(region: seq<byte>, city: seq<byte>, postal: seq<byte>, next: nat)

  /** Region, city and postal code as NUL-terminated strings from position
      1, each starting after the previous one's NUL. */
  function ReadStrings(buf: seq<byte>): (r: Result<Strings, GeoIPError>)
    ensures r.Failure? ==> r.error == TruncatedRead
  {
    var region :- ReadField(buf, 1);
    var city :- ReadField(buf, region.next);
    var postal :- ReadField(buf, city.next);
    Success(Strings(region.bytes, city.bytes, postal.bytes, postal.next))
  }

  /** The record in `buf`: country index, region, city and postal code as
      NUL-terminated strings, then the numeric fields. */
  function DecodeRecord(tables: Tables, databaseType: nat, buf: seq<byte>): (r: Result<Record, GeoIPError>)
    ensures r.Failure? ==> r.error == TruncatedRead || r.error == UnknownCountry
  {
    if |buf| == 0 then Failure(TruncatedRead)
    else
      var c := buf[0] as nat;
      if c >= |tables.countryCodes| || c >= |tables.countryCodes3| || c >= |tables.countryNames| then
        Failure(UnknownCountry)
      else
        var strings :- ReadStrings(buf);
        DecodeNumbers(tables, databaseType, buf, c, strings.region, strings.city, strings.postal, strings.next)
  }

  /** The numeric fields from `pos`: latitude and longitude, then the
      DMA/area value where the edition and country call for one; together
      with the fields already read, the whole record. */
  function DecodeNumbers(tables: Tables, databaseType: nat, buf: seq<byte>, c: nat,
                         region: seq<byte>, city: seq<byte>, postal: seq<byte>, pos: nat)
    : (r: Result<Record, GeoIPError>)
    requires c < |tables.countryCodes| && c < |tables.countryCodes3| && c < |tables.countryNames|
    ensures r.Failure? ==> r.error == TruncatedRead
  {
    var latitude :- Fixed(buf, pos);
    var longitude :- Fixed(buf, pos + FIXED_WIDTH);
    var code := tables.countryCodes[c];
    var dmaArea :- DmaArea(buf, pos + 2 * FIXED_WIDTH, databaseType, code);
    Success(Record(
      code, tables.countryCodes3[c], tables.countryNames[c],
      Optional(region), city, Optional(postal),
      latitude - COORDINATE_BIAS, longitude - COORDINATE_BIAS,
      dmaArea.0, dmaArea.1,
      MetroCode(tables, dmaArea.0),
      TimeZoneName(tables, code, Optional(region))))
  }

  /** Where the record of a terminal pointer starts: past the trie, whose
      `segments` nodes take `2 * recordLength` bytes each, less the bias
      `segments` that the pointer carries. */
  function RecordOffset(pointer: nat, segments: nat): nat
  {
    pointer + (2 * STANDARD_RECORD_LENGTH - 1) * segments
  }

  /** The lookup of one address: None when the search ends on the pointer
      equal to the segment count, else the record at its offset, decoded
      from at most FULL_RECORD_LENGTH bytes. */
  function RecordFor(tables: Tables, data: seq<byte>, databaseType: nat, segments: Option<nat>, ipnum: nat)
    : (r: Result<Option<Record>, GeoIPError>)
    ensures r.Failure? ==> r.error in {TraversalFailed, TruncatedRead, SegmentsUnset, UnknownCountry}
    ensures r.Success? && r.value.Some? ==>
              && -COORDINATE_BIAS <= r.value.value.latitude < Pow256(FIXED_WIDTH) - COORDINATE_BIAS
              && -COORDINATE_BIAS <= r.value.value.longitude < Pow256(FIXED_WIDTH) - COORDINATE_BIAS
  {
    DescendResult(data, segments, ipnum, 0, 32);
    var leaf :- Search(data, segments, ipnum);
    if leaf.pointer == segments.value then Success(None)
    else
      var buf := Slice(data, RecordOffset(leaf.pointer, segments.value), FULL_RECORD_LENGTH);
      var record :- DecodeRecord(tables, databaseType, buf);
      DecodedFieldsInRange(tables, databaseType, buf, record);
      Success(Some(record))
  }

  /** What the location lookup returns: longitude and latitude, in
      ten-thousandths of a degree. */
  datatype Location = Location(lng: int, lat: int)

  /** The checks and the record shared by both public lookups. `ipnum` is
      what the address parser returned (None for an unparsable address); a
      missing or zero number is rejected first, then a database that is not
      a City edition, and only then is the trie searched. A lookup that
      finds no record fails, because the caller subscripts the None it gets. */
  function Lookup(tables: Tables, data: seq<byte>, databaseType: nat, segments: Option<nat>, ipnum: Option<nat>)
    : (r: Result<Record, GeoIPError>)
    ensures (ipnum.None? || ipnum == Some(0)) ==> r == Failure(InvalidAddress)
    ensures r.Success? ==> ipnum.Some? && ipnum.value != 0 && IsCityEdition(databaseType)
    ensures r.Success? ==>
              && -COORDINATE_BIAS <= r.value.latitude < Pow256(FIXED_WIDTH) - COORDINATE_BIAS
              && -COORDINATE_BIAS <= r.value.longitude < Pow256(FIXED_WIDTH) - COORDINATE_BIAS
  {
    if ipnum.None? || ipnum.value == 0 then Failure(InvalidAddress)
    else if !IsCityEdition(databaseType) then Failure(InvalidDatabaseType)
    else
      match RecordFor(tables, data, databaseType, segments, ipnum.value)
      case Failure(e) => Failure(e)
      case Success(None) => Failure(NoRecord)
      case Success(Some(record)) => Success(record)
  }

  /** The location lookup: the record's longitude and latitude. */
  function LocationFor(tables: Tables, data: seq<byte>, databaseType: nat, segments: Option<nat>, ipnum: Option<nat>)
    : (r: Result<Location, GeoIPError>)
    ensures r.Success? ==>
              && -COORDINATE_BIAS <= r.value.lat < Pow256(FIXED_WIDTH) - COORDINATE_BIAS
              && -COORDINATE_BIAS <= r.value.lng < Pow256(FIXED_WIDTH) - COORDINATE_BIAS
  {
    var record :- Lookup(tables, data, databaseType, segments, ipnum);
    Success(Location(record.longitude, record.latitude))
  }

  /** The time-zone lookup: the record's time-zone name, or None when it is
      empty. */
  function TimeZoneFor(tables: Tables, data: seq<byte>, databaseType: nat, segments: Option<nat>, ipnum: Option<nat>)
    : (r: Result<Option<string>, GeoIPError>)
    ensures r.Success? ==> IsCityEdition(databaseType)
    ensures r.Success? && r.value.Some? ==> r.value.value != ""
  {
    var record :- Lookup(tables, data, databaseType, segments, ipnum);
    Success(if record.timeZone == "" then None else Some(record.timeZone))
  }

  // ---------------------------------------------------------------------
  // Properties of the record decoder

  /** The fields a database writer puts into a record: the country index,
      the three strings, the coordinates in ten-thousandths of a degree and
      the DMA and area codes. */
  datatype RawRecord = RawRecord(
    country: byte,
    region: seq<byte>,
    city: seq<byte>,
    postal: seq<byte>,
    latitude: int,
    longitude: int,
    dma: nat,
    area: nat)

  /** Fields that the format can represent: a country the tables know,
      strings without NUL, coordinates and the DMA/area value within 3
      bytes. */
  predicate WellFormed(tables: Tables, raw: RawRecord)
  {
    && (raw.country as nat) < |tables.countryCodes|
    && (raw.country as nat) < |tables.countryCodes3|
    && (raw.country as nat) < |tables.countryNames|
    && 0 !in raw.region && 0 !in raw.city && 0 !in raw.postal
    && 0 <= raw.latitude + COORDINATE_BIAS < Pow256(FIXED_WIDTH)
    && 0 <= raw.longitude + COORDINATE_BIAS < Pow256(FIXED_WIDTH)
    && raw.area < 1000
    && CombinedDmaArea(raw) < Pow256(FIXED_WIDTH)
  }

  /** Whether a record of this country carries the DMA/area value. */
  predicate CarriesDmaArea(tables: Tables, databaseType: nat, country: byte)
    requires (country as nat) < |tables.countryCodes|
  {
    databaseType == CITY_EDITION_REV1 && tables.countryCodes[country] == "US"
  }

  /** The bytes of a record, as the writer lays them out. */
  function EncodeRecord(raw: RawRecord, withDmaArea: bool): seq<byte>
    requires 0 <= raw.latitude + COORDINATE_BIAS && 0 <= raw.longitude + COORDINATE_BIAS
  {
    [raw.country] + raw.region + [0] + raw.city + [0] + raw.postal + [0]
    + EncodeLittleEndian(raw.latitude + COORDINATE_BIAS, FIXED_WIDTH)
    + EncodeLittleEndian(raw.longitude + COORDINATE_BIAS, FIXED_WIDTH)
    + EncodeDmaArea(raw, withDmaArea)
  }

  /** The record a lookup should report for the written fields: an empty
      region or postal code is absent, an empty city stays empty; DMA and
      area codes come back on Rev1 US records, are absent on other Rev1
      records and are 0 on other editions. */
  function Expected(tables: Tables, databaseType: nat, raw: RawRecord): Record
    requires WellFormed(tables, raw)
  {
    var code := tables.countryCodes[raw.country];
    var dma: Option<nat> :=
      if databaseType != CITY_EDITION_REV1 then Some(0)
      else if code == "US" then Some(raw.dma) else None;
    var area: Option<nat> :=
      if databaseType != CITY_EDITION_REV1 then Some(0)
      else if code == "US" then Some(raw.area) else None;
    Record(
      code, tables.countryCodes3[raw.country], tables.countryNames[raw.country],
      Optional(raw.region), raw.city, Optional(raw.postal),
      raw.latitude, raw.longitude, dma, area,
      MetroCode(tables, dma), TimeZoneName(tables, code, Optional(raw.region)))
  }

  lemma DivModCombo(dma: nat, area: nat)
    requires area < 1000
    ensures (dma * 1000 + area) / 1000 == dma && (dma * 1000 + area) % 1000 == area
  {
  }

  /** A NUL-terminated string followed by `rest` reads back as itself and
      leaves the cursor at `rest`. */
  lemma StringAt(buf: seq<byte>, pos: nat, s: seq<byte>, rest: seq<byte>)
    requires pos <= |buf| && buf[pos..] == s + [0] + rest && 0 !in s
    ensures ReadField(buf, pos) == Success(Field(s, pos + |s| + 1))
    ensures buf[pos + |s| + 1..] == rest
  {
    assert buf[pos..pos + |s|] == buf[pos..][..|s|] == s;
    assert buf[pos + |s|] == buf[pos..][|s|] == 0;
    StringLengthFindsNul(buf, pos, |s|);
    assert buf[pos + |s| + 1..] == buf[pos..][|s| + 1..];
  }

  /** A 3-byte value followed by `rest` reads back as itself and leaves the
      cursor at `rest`. */
  lemma FixedAt(buf: seq<byte>, pos: nat, v: nat, rest: seq<byte>)
    requires v < Pow256(FIXED_WIDTH)
    requires pos <= |buf| && buf[pos..] == EncodeLittleEndian(v, FIXED_WIDTH) + rest
    ensures Fixed(buf, pos) == Success(v) && buf[pos + FIXED_WIDTH..] == rest
  {
    assert buf[pos..pos + FIXED_WIDTH] == buf[pos..][..FIXED_WIDTH];
    DecodeEncode(v, FIXED_WIDTH);
    assert buf[pos + FIXED_WIDTH..] == buf[pos..][FIXED_WIDTH..];
  }

  /** The DMA and area codes of a record, combined as the writer stores them. */
  function CombinedDmaArea(raw: RawRecord): nat
  {
    raw.dma * 1000 + raw.area
  }

  /** The bytes after the coordinates: the combined DMA/area value when the
      record carries one. */
  function EncodeDmaArea(raw: RawRecord, withDmaArea: bool): seq<byte>
  {
    if withDmaArea then EncodeLittleEndian(CombinedDmaArea(raw), FIXED_WIDTH) else []
  }

  lemma DmaAreaEncoded(tables: Tables, databaseType: nat, buf: seq<byte>, raw: RawRecord, pos: nat, tail: seq<byte>)
    requires WellFormed(tables, raw)
    requires pos <= |buf|
    requires buf[pos..] == EncodeDmaArea(raw, CarriesDmaArea(tables, databaseType, raw.country)) + tail
    ensures DmaArea(buf, pos, databaseType, tables.countryCodes[raw.country])
         == Success((Expected(tables, databaseType, raw).dmaCode, Expected(tables, databaseType, raw).areaCode))
  {
    if CarriesDmaArea(tables, databaseType, raw.country) {
      FixedAt(buf, pos, CombinedDmaArea(raw), tail);
      DivModCombo(raw.dma, raw.area);
    }
  }

  lemma NumbersEncoded(tables: Tables, databaseType: nat, buf: seq<byte>, raw: RawRecord, pos: nat, tail: seq<byte>)
    requires WellFormed(tables, raw)
    requires pos <= |buf|
    requires buf[pos..] == EncodeLittleEndian(raw.latitude + COORDINATE_BIAS, FIXED_WIDTH)
                           + (EncodeLittleEndian(raw.longitude + COORDINATE_BIAS, FIXED_WIDTH)
                              + (EncodeDmaArea(raw, CarriesDmaArea(tables, databaseType, raw.country)) + tail))
    ensures DecodeNumbers(tables, databaseType, buf, raw.country as nat, raw.region, raw.city, raw.postal, pos)
         == Success(Expected(tables, databaseType, raw))
  {
    var combo := EncodeDmaArea(raw, CarriesDmaArea(tables, databaseType, raw.country));
    FixedAt(buf, pos, raw.latitude + COORDINATE_BIAS,
            EncodeLittleEndian(raw.longitude + COORDINATE_BIAS, FIXED_WIDTH) + (combo + tail));
    FixedAt(buf, pos + FIXED_WIDTH, raw.longitude + COORDINATE_BIAS, combo + tail);
    DmaAreaEncoded(tables, databaseType, buf, raw, pos + 2 * FIXED_WIDTH, tail);
  }

  /** A written record followed by `tail`, regrouped as the decoder reads
      it: the country byte, the three strings, then the numeric fields and
      whatever follows. */
  lemma RecordLayout(raw: RawRecord, withDmaArea: bool, tail: seq<byte>, numbers: seq<byte>)
    requires 0 <= raw.latitude + COORDINATE_BIAS && 0 <= raw.longitude + COORDINATE_BIAS
    requires numbers == EncodeLittleEndian(raw.latitude + COORDINATE_BIAS, FIXED_WIDTH)
                        + (EncodeLittleEndian(raw.longitude + COORDINATE_BIAS, FIXED_WIDTH)
                           + (EncodeDmaArea(raw, withDmaArea) + tail))
    ensures EncodeRecord(raw, withDmaArea) + tail
         == [raw.country] + (raw.region + [0] + (raw.city + [0] + (raw.postal + [0] + numbers)))
  {
    var strings := [raw.country] + raw.region + [0] + raw.city + [0] + raw.postal + [0];
    RegroupTail(strings, EncodeLittleEndian(raw.latitude + COORDINATE_BIAS, FIXED_WIDTH),
                EncodeLittleEndian(raw.longitude + COORDINATE_BIAS, FIXED_WIDTH), EncodeDmaArea(raw, withDmaArea), tail);
    RegroupStrings([raw.country], raw.region, raw.city, raw.postal, numbers);
  }

  lemma RegroupTail(a: seq<byte>, b: seq<byte>, c: seq<byte>, d: seq<byte>, t: seq<byte>)
    ensures a + b + c + d + t == a + (b + (c + (d + t)))
  {
  }

  lemma RegroupStrings(c: seq<byte>, r: seq<byte>, ci: seq<byte>, p: seq<byte>, n: seq<byte>)
    ensures c + r + [0] + ci + [0] + p + [0] + n == c + (r + [0] + (ci + [0] + (p + [0] + n)))
  {
  }

  /** Decoding a written record gives back its fields, whatever follows it:
      each string consumes its bytes and one NUL, the coordinates exactly 6
      bytes and the DMA/area value 3 more. */
  lemma DecodeEncodeRecord(tables: Tables, databaseType: nat, raw: RawRecord, tail: seq<byte>)
    requires WellFormed(tables, raw)
    ensures DecodeRecord(tables, databaseType,
              EncodeRecord(raw, CarriesDmaArea(tables, databaseType, raw.country)) + tail)
         == Success(Expected(tables, databaseType, raw))
  {
    var carries := CarriesDmaArea(tables, databaseType, raw.country);
    var numbers := EncodeLittleEndian(raw.latitude + COORDINATE_BIAS, FIXED_WIDTH)
                   + (EncodeLittleEndian(raw.longitude + COORDINATE_BIAS, FIXED_WIDTH)
                      + (EncodeDmaArea(raw, carries) + tail));
    NumbersEncoded(tables, databaseType, numbers, raw, 0, tail);
    var buf := EncodeRecord(raw, carries) + tail;
    RecordLayout(raw, carries, tail, numbers);
    assert buf[0] == raw.country && buf[1..] == raw.region + [0] + (raw.city + [0] + (raw.postal + [0] + numbers));
    StringsThenNumbers(tables, databaseType, buf, raw, numbers, Success(Expected(tables, databaseType, raw)));
  }

  /** A buffer laid out as the country index, the three NUL-terminated
      strings and then `numbers` decodes to the strings of `raw` and to
      whatever the numeric fields of `numbers` decode to. */
  lemma StringsThenNumbers(tables: Tables, databaseType: nat, buf: seq<byte>, raw: RawRecord,
                           numbers: seq<byte>, result: Result<Record, GeoIPError>)
    requires (raw.country as nat) < |tables.countryCodes| && (raw.country as nat) < |tables.countryCodes3|
    requires (raw.country as nat) < |tables.countryNames|
    requires 0 !in raw.region && 0 !in raw.city && 0 !in raw.postal
    requires DecodeNumbers(tables, databaseType, numbers, raw.country as nat, raw.region, raw.city, raw.postal, 0)
             == result
    requires |buf| > 0 && buf[0] == raw.country
    requires buf[1..] == raw.region + [0] + (raw.city + [0] + (raw.postal + [0] + numbers))
    ensures DecodeRecord(tables, databaseType, buf) == result
  {
    StringsLaidOut(buf, raw.region, raw.city, raw.postal, numbers);
    RecordLaidOut(tables, databaseType, buf, raw, numbers,
                  1 + |raw.region| + 1 + |raw.city| + 1 + |raw.postal| + 1, result);
  }

  /** The record decoder on a buffer whose country index and three strings
      read back as those of `raw`, followed by bytes whose numeric fields
      decode to `result`. */
  lemma RecordLaidOut(tables: Tables, databaseType: nat, buf: seq<byte>, raw: RawRecord,
                      numbers: seq<byte>, next: nat, result: Result<Record, GeoIPError>)
    requires (raw.country as nat) < |tables.countryCodes| && (raw.country as nat) < |tables.countryCodes3|
    requires (raw.country as nat) < |tables.countryNames|
    requires DecodeNumbers(tables, databaseType, numbers, raw.country as nat, raw.region, raw.city, raw.postal, 0)
             == result
    requires |buf| > 0 && buf[0] == raw.country
    requires ReadStrings(buf) == Success(Strings(raw.region, raw.city, raw.postal, next))
    requires next <= |buf| && buf[next..] == numbers
    ensures DecodeRecord(tables, databaseType, buf) == result
  {
    NumbersFrom(tables, databaseType, buf, raw.country as nat, raw.region, raw.city, raw.postal, next);
    StringsDecoded(tables, databaseType, buf, Strings(raw.region, raw.city, raw.postal, next));
  }

  /** The numeric fields depend only on the bytes from `pos` on. */
  lemma NumbersFrom(tables: Tables, databaseType: nat, buf: seq<byte>, c: nat,
                    region: seq<byte>, city: seq<byte>, postal: seq<byte>, pos: nat)
    requires c < |tables.countryCodes| && c < |tables.countryCodes3| && c < |tables.countryNames|
    requires pos <= |buf|
    ensures DecodeNumbers(tables, databaseType, buf, c, region, city, postal, pos)
         == DecodeNumbers(tables, databaseType, buf[pos..], c, region, city, postal, 0)
  {
    var rest := buf[pos..];
    forall k | 0 <= k <= 2
      ensures Fixed(buf, pos + k * FIXED_WIDTH) == Fixed(rest, k * FIXED_WIDTH)
    {
      if pos + k * FIXED_WIDTH + FIXED_WIDTH <= |buf| {
        assert buf[pos + k * FIXED_WIDTH..pos + k * FIXED_WIDTH + FIXED_WIDTH]
            == rest[k * FIXED_WIDTH..k * FIXED_WIDTH + FIXED_WIDTH];
      }
    }
    assert Fixed(buf, pos + 0 * FIXED_WIDTH) == Fixed(rest, 0 * FIXED_WIDTH);
    assert Fixed(buf, pos + 1 * FIXED_WIDTH) == Fixed(rest, 1 * FIXED_WIDTH);
    assert Fixed(buf, pos + 2 * FIXED_WIDTH) == Fixed(rest, 2 * FIXED_WIDTH);
  }

  /** The three strings of a record laid out one after another, each with
      its NUL, read back as themselves. */
  lemma StringsLaidOut(buf: seq<byte>, region: seq<byte>, city: seq<byte>, postal: seq<byte>, rest: seq<byte>)
    requires 0 !in region && 0 !in city && 0 !in postal
    requires |buf| > 0 && buf[1..] == region + [0] + (city + [0] + (postal + [0] + rest))
    ensures ReadStrings(buf) == Success(Strings(region, city, postal, 1 + |region| + 1 + |city| + 1 + |postal| + 1))
    ensures buf[1 + |region| + 1 + |city| + 1 + |postal| + 1..] == rest
  {
    var cityAt := 1 + |region| + 1;
    var postalAt := cityAt + |city| + 1;
    StringAt(buf, 1, region, city + [0] + (postal + [0] + rest));
    StringAt(buf, cityAt, city, postal + [0] + rest);
    StringAt(buf, postalAt, postal, rest);
    FieldsRead(buf, Field(region, cityAt), Field(city, postalAt), Field(postal, postalAt + |postal| + 1));
  }

  /** The three strings are the three fields read one after another. */
  lemma FieldsRead(buf: seq<byte>, region: Field, city: Field, postal: Field)
    requires ReadField(buf, 1) == Success(region)
    requires ReadField(buf, region.next) == Success(city)
    requires ReadField(buf, city.next) == Success(postal)
    ensures ReadStrings(buf) == Success(Strings(region.bytes, city.bytes, postal.bytes, postal.next))
  {
  }

  /** The record decoder once its three strings are known: the numeric
      fields follow the postal code's NUL. */
  lemma StringsDecoded(tables: Tables, databaseType: nat, buf: seq<byte>, strings: Strings)
    requires |buf| > 0
    requires (buf[0] as nat) < |tables.countryCodes| && (buf[0] as nat) < |tables.countryCodes3|
    requires (buf[0] as nat) < |tables.countryNames|
    requires ReadStrings(buf) == Success(strings)
    ensures DecodeRecord(tables, databaseType, buf)
         == DecodeNumbers(tables, databaseType, buf, buf[0] as nat, strings.region, strings.city, strings.postal,
                          strings.next)
  {
  }


  /** Bounds of decoded values: coordinates are at least -180 degrees and
      below 2^24 ten-thousandths above that; an area code is below 1000. */
  lemma DecodedFieldsInRange(tables: Tables, databaseType: nat, buf: seq<byte>, record: Record)
    requires DecodeRecord(tables, databaseType, buf) == Success(record)
    ensures -COORDINATE_BIAS <= record.latitude < Pow256(FIXED_WIDTH) - COORDINATE_BIAS
    ensures -COORDINATE_BIAS <= record.longitude < Pow256(FIXED_WIDTH) - COORDINATE_BIAS
    ensures record.areaCode.Some? ==> record.areaCode.value < 1000
    ensures record.dmaCode.Some? ==> record.dmaCode.value * 1000 < Pow256(FIXED_WIDTH)
  {
    var strings := ReadStrings(buf).value;
    NumbersInRange(tables, databaseType, buf, buf[0] as nat, strings.region, strings.city, strings.postal,
                   strings.next, record);
  }

  lemma NumbersInRange(tables: Tables, databaseType: nat, buf: seq<byte>, c: nat,
                       region: seq<byte>, city: seq<byte>, postal: seq<byte>, pos: nat, record: Record)
    requires c < |tables.countryCodes| && c < |tables.countryCodes3| && c < |tables.countryNames|
    requires DecodeNumbers(tables, databaseType, buf, c, region, city, postal, pos) == Success(record)
    ensures -COORDINATE_BIAS <= record.latitude < Pow256(FIXED_WIDTH) - COORDINATE_BIAS
    ensures -COORDINATE_BIAS <= record.longitude < Pow256(FIXED_WIDTH) - COORDINATE_BIAS
    ensures record.areaCode.Some? ==> record.areaCode.value < 1000
    ensures record.dmaCode.Some? ==> record.dmaCode.value * 1000 < Pow256(FIXED_WIDTH)
  {
    LittleEndianBound(buf[pos..pos + FIXED_WIDTH]);
    LittleEndianBound(buf[pos + FIXED_WIDTH..pos + 2 * FIXED_WIDTH]);
    if databaseType == CITY_EDITION_REV1 && tables.countryCodes[c] == "US" {
      LittleEndianBound(buf[pos + 2 * FIXED_WIDTH..pos + 3 * FIXED_WIDTH]);
    }
  }

  /** Edition rules for the DMA, area and metro codes, and the absent-field
      rules for region and postal code. */
  lemma DecodedEditionFields(tables: Tables, databaseType: nat, buf: seq<byte>, record: Record)
    requires DecodeRecord(tables, databaseType, buf) == Success(record)
    ensures databaseType != CITY_EDITION_REV1 ==> record.dmaCode == Some(0) && record.areaCode == Some(0)
    ensures databaseType == CITY_EDITION_REV1 ==>
              && (record.dmaCode.Some? <==> record.countryCode == "US")
              && (record.areaCode.Some? <==> record.countryCode == "US")
    ensures record.metroCode
         == if record.dmaCode.Some? && record.dmaCode.value in tables.dmaMap
            then tables.dmaMap[record.dmaCode.value] else ""
    ensures record.regionName != Some([]) && record.postalCode != Some([])
    ensures record.countryCode == tables.countryCodes[buf[0]]
  {
  }

  /** A lookup yields no record exactly when the search ends on the pointer
      equal to the segment count. */
  lemma RecordForNoneIffSentinel(tables: Tables, data: seq<byte>, databaseType: nat, segments: Option<nat>, ipnum: nat)
    ensures RecordFor(tables, data, databaseType, segments, ipnum) == Success(None)
        <==> (Search(data, segments, ipnum).Success? && segments.Some?
              && Search(data, segments, ipnum).value.pointer == segments.value)
  {
  }

  /** Where a lookup finds its record: a record written at
      `pointer + (2 * recordLength - 1) * segments` within FULL_RECORD_LENGTH
      bytes is what the lookup returns. */
  lemma RecordForEncoded(tables: Tables, data: seq<byte>, databaseType: nat, segments: nat, ipnum: nat,
                         leaf: Leaf, raw: RawRecord)
    requires Search(data, Some(segments), ipnum) == Success(leaf)
    requires leaf.pointer != segments
    requires WellFormed(tables, raw)
    requires var encoded := EncodeRecord(raw, CarriesDmaArea(tables, databaseType, raw.country));
             var start := leaf.pointer + 5 * segments;
             && |encoded| <= FULL_RECORD_LENGTH
             && start + |encoded| <= |data|
             && data[start..start + |encoded|] == encoded
    ensures RecordFor(tables, data, databaseType, Some(segments), ipnum)
         == Success(Some(Expected(tables, databaseType, raw)))
  {
    var encoded := EncodeRecord(raw, CarriesDmaArea(tables, databaseType, raw.country));
    var start := leaf.pointer + 5 * segments;
    var buf := Slice(data, RecordOffset(leaf.pointer, segments), FULL_RECORD_LENGTH);
    assert buf == encoded + buf[|encoded|..];
    DecodeEncodeRecord(tables, databaseType, raw, buf[|encoded|..]);
  }

  /** Two addresses in the same network, agreeing on the bits the search
      looked at, get the same lookup result. */
  lemma SameNetworkSameRecord(tables: Tables, data: seq<byte>, databaseType: nat, segments: Option<nat>,
                              a: nat, b: nat, leaf: Leaf)
    requires Search(data, segments, a) == Success(leaf)
    requires forall k :: leaf.depth <= k < 32 ==> Bit(a, k) == Bit(b, k)
    ensures RecordFor(tables, data, databaseType, segments, b) == RecordFor(tables, data, databaseType, segments, a)
  {
    SamePrefixSameLeaf(data, segments, a, b, 0, 32, leaf);
  }

  // ---------------------------------------------------------------------
  // Properties of the public lookups

  /** A lookup fails with NoRecord exactly when the address is valid, the
      database is a City edition and the search ends on the pointer equal
      to the segment count: no other step raises that error. */
  lemma LookupNoRecordIffSentinel(tables: Tables, data: seq<byte>, databaseType: nat, segments: Option<nat>, ipnum: Option<nat>)
    ensures Lookup(tables, data, databaseType, segments, ipnum) == Failure(NoRecord)
        <==> (&& ipnum.Some? && ipnum.value != 0 && IsCityEdition(databaseType)
              && Search(data, segments, ipnum.value).Success? && segments.Some?
              && Search(data, segments, ipnum.value).value.pointer == segments.value)
  {
    if ipnum.Some? && ipnum.value != 0 && IsCityEdition(databaseType) {
      DescendResult(data, segments, ipnum.value, 0, 32);
      RecordForNoneIffSentinel(tables, data, databaseType, segments, ipnum.value);
    }
  }

  /** The location lookup of an address whose search reaches a written
      record reports that record's longitude and latitude. */
  lemma LocationOfWrittenRecord(tables: Tables, data: seq<byte>, databaseType: nat, segments: nat, ipnum: nat,
                                leaf: Leaf, raw: RawRecord)
    requires ipnum != 0 && IsCityEdition(databaseType)
    requires Search(data, Some(segments), ipnum) == Success(leaf)
    requires leaf.pointer != segments
    requires WellFormed(tables, raw)
    requires var encoded := EncodeRecord(raw, CarriesDmaArea(tables, databaseType, raw.country));
             var start := leaf.pointer + 5 * segments;
             && |encoded| <= FULL_RECORD_LENGTH
             && start + |encoded| <= |data|
             && data[start..start + |encoded|] == encoded
    ensures LocationFor(tables, data, databaseType, Some(segments), Some(ipnum))
         == Success(Location(raw.longitude, raw.latitude))
  {
    RecordForEncoded(tables, data, databaseType, segments, ipnum, leaf, raw);
  }

  /** The time-zone lookup of an address whose search reaches a written
      record reports the zone the table gives for its country and region,
      and None when the table gives none or an empty name. */
  lemma TimeZoneOfWrittenRecord(tables: Tables, data: seq<byte>, databaseType: nat, segments: nat, ipnum: nat,
                                leaf: Leaf, raw: RawRecord)
    requires ipnum != 0 && IsCityEdition(databaseType)
    requires Search(data, Some(segments), ipnum) == Success(leaf)
    requires leaf.pointer != segments
    requires WellFormed(tables, raw)
    requires var encoded := EncodeRecord(raw, CarriesDmaArea(tables, databaseType, raw.country));
             var start := leaf.pointer + 5 * segments;
             && |encoded| <= FULL_RECORD_LENGTH
             && start + |encoded| <= |data|
             && data[start..start + |encoded|] == encoded
    ensures TimeZoneFor(tables, data, databaseType, Some(segments), Some(ipnum))
         == Success(match tables.timeZone(tables.countryCodes[raw.country], Optional(raw.region))
                    case Some(name) => if name == "" then None else Some(name)
                    case None => None)
  {
    RecordForEncoded(tables, data, databaseType, segments, ipnum, leaf, raw);
  }
}
