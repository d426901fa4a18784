# GeoIP City database reader

This project models the reader for the legacy MaxMind "GeoLite City" binary database, as implemented in
`googlemap/ip2geo/__init__.py`. The reader does four things:

- When a database is opened, it scans backwards from near the end of the file for a `FF FF FF` delimiter.
  It then reads the edition byte and, for a City edition, the 3-byte segment count (`_setup_segments`).
- It walks a binary trie over the 32 bits of an IPv4 number, most significant bit first. Each node holds two
  3-byte little-endian pointers. A pointer at or above the segment count ends the walk (`_seek_country`).
- It decodes one variable-length record (`_get_record`):
  - a country index;
  - three NUL-terminated strings (region, city and postal code);
  - two 3-byte coordinates;
  - on City Rev1 US records only, a combined DMA/area value.
- It runs the two public lookups, location and time zone. Each validates the address and the edition before
  reading anything.

The project has four modules:

- `Wrappers` (wrappers.dfy) holds `Option` and `Result`.
- `Bytes` (bytes.dfy) holds the byte type, little-endian values and a bounded slice that behaves like a read
  at the end of a file.
- `GeoIPFormat` (format.dfy) states the format as pure functions of the file's bytes:
  - `ScanTrailer` for the trailer scan;
  - `Search` and `Descend` for the trie walk;
  - `DecodeRecord`, `RecordFor`, `LocationFor` and `TimeZoneFor` for records and lookups.

  It also holds the properties proved about these functions.
- `GeoIP` (geoip.dfy) holds the class `GeoIP`, an open database with a file position. Its methods do what
  the original does, seek by seek and read by read. Each method is proved to compute the matching function
  of `GeoIPFormat`. The record decoder's loops are the methods `ScanString`, `ParseStrings` and
  `ParseNumbers`.

The file is one immutable byte sequence, so the three file modes (plain, memory cache and mmap) are read
the same way. The country tables, the DMA-to-metro map and the (country, region) time-zone function are not
part of this model. They are passed in as a `Tables` value. The address parser is not part of this model
either: a lookup takes its result, `Option<nat>`, where None stands for an unparsable address.

Each exception the original raises becomes a `GeoIPError` value:

| error | exception in the original |
|---|---|
| `InvalidSeek` | a seek before the start of the file |
| `TruncatedRead` | an index past what a read returned |
| `SegmentsUnset` | the `_databaseSegments` attribute was never assigned |
| `TraversalFailed` | 32 levels of the trie without a terminal pointer |
| `UnknownCountry` | a country index past the tables |
| `InvalidAddress` | a falsy address number |
| `InvalidDatabaseType` | an edition other than City |
| `NoRecord` | the lookup subscripted the `None` that `_get_record` returned |

Coordinates are integers in ten-thousandths of a degree: the stored value minus 1800000. The constants are
those of the legacy format:

| constant | value |
|---|---|
| `CITY_EDITION_REV1` | 2 |
| `CITY_EDITION_REV0` | 6 |
| `STRUCTURE_INFO_MAX_SIZE` | 20 |
| `SEGMENT_RECORD_LENGTH` | 3 |
| `STANDARD_RECORD_LENGTH` | 3 |
| `FULL_RECORD_LENGTH` | 50 |

Three behaviours of the source shape the model:

- A failed trailer probe reads 3 bytes and then seeks back 4, so the next probe starts one byte earlier.
- For an address with no record, `_get_record` returns `None`, and both lookups then subscript it. The
  model reports this as `NoRecord`.
- A file with no trailer delimiter leaves `_databaseSegments` unassigned. The first trie comparison then
  fails, which the model reports as `SegmentsUnset`.

## Model

| member | source | states |
|---|---|---|
| GeoIPFormat.TrailerAt | googlemap/ip2geo/__init__.py:91-99 | The trailer after a delimiter: the edition byte, then the 3-byte little-endian segment count for a City edition only. Its contract: a segment count is present exactly for a City edition, and the only failure is a short read |
| GeoIPFormat.Probe | googlemap/ip2geo/__init__.py:87-103 | The scan from one probe position with some tries left; a failed probe moves one byte back. Its contract: it fails only on a seek before the start of the file or a short read, and a segment count comes only with a City edition |
| GeoIPFormat.ScanTrailer | googlemap/ip2geo/__init__.py:84-103 | The whole scan, first probe at `size - 3`, with STRUCTURE_INFO_MAX_SIZE tries. It has the same failure and segment-count guarantees as `Probe` |
| GeoIPFormat.ProbeFound | googlemap/ip2geo/__init__.py:87-103 | From probe position `p`, with the delimiter at `d <= p` within the probes left and none between, the scan reads the trailer right after `d`: each failed probe moves one byte back |
| GeoIPFormat.ProbeNotFound | googlemap/ip2geo/__init__.py:87-103 | With no delimiter among the probed positions, the scan keeps the defaults, or fails with a bad seek when the window reaches offset 0 |
| GeoIPFormat.ProbeStep | googlemap/ip2geo/__init__.py:102-103 | A failed probe away from the start of the file continues the scan one byte earlier with one try fewer |
| GeoIPFormat.ScanTrailerFound | googlemap/ip2geo/__init__.py:84-101 | The first probe is at `size - 3` and at most STRUCTURE_INFO_MAX_SIZE probes are made. The delimiter nearest the end wins; the edition byte follows it, then the little-endian segment count for a City edition |
| GeoIPFormat.ScanTrailerNotFound | googlemap/ip2geo/__init__.py:81-103 | With no delimiter in the window, the edition stays CITY_EDITION_REV1 and no segment count is set; a file shorter than the window fails on the backward seek |
| GeoIP.GeoIP.SetupSegments | googlemap/ip2geo/__init__.py:76-105 | The loop computes the trailer scan: it fails exactly when the scan does, with its error. It sets the edition and the segment count from the scan, keeps an old count when the edition is not City, sets the standard record length and puts the file position back |
| GeoIP.GeoIP.ReadTrailerFields | googlemap/ip2geo/__init__.py:91-99 | Reads the edition byte at the cursor, then for a City edition the 3-byte little-endian segment count; fails on a short read. On success the cursor ends after the bytes read: 1, plus 3 for a City edition |
| GeoIP.GeoIP.Seek | googlemap/ip2geo/__init__.py:85 | A seek by whence: a target before the start of the file fails and leaves the position; otherwise the position becomes the target |
| GeoIP.GeoIP.Read | googlemap/ip2geo/__init__.py:88 | A read returns at most `n` bytes from the position (fewer at the end of the file) and advances the position by what it returned |
| GeoIP.Open | googlemap/ip2geo/__init__.py:43-74 | Opening gives a fresh, valid reader at position 0 whose edition and segment count are those of the trailer scan, or the scan's error |
| GeoIP.GeoIP.ReadNode | googlemap/ip2geo/__init__.py:121-134 | Node `n` is read from bytes `[6n, 6n+6)` as two 3-byte little-endian pointers; a short read gives none. The cursor ends after the bytes the read returned |
| GeoIPFormat.Descend | googlemap/ip2geo/__init__.py:119-150 | The trie walk from node `offset` with `levels` bits left: it reads the node, takes pointer 1 on a set bit and pointer 0 on a clear one, stops on a pointer at or above the segment count and fails after the last level; `DescendResult` states its outcomes |
| GeoIPFormat.Search | googlemap/ip2geo/__init__.py:117-150 | The walk of one address from node 0 over bits 31 down to 0; `DescendResult` with 32 levels states its outcomes |
| GeoIPFormat.DescendResult | googlemap/ip2geo/__init__.py:136-150 | A successful walk ends on a pointer at or above the segment count, at a bit below the levels left. The only failures are 32 levels without such a pointer, a short node read and an unset segment count |
| GeoIP.GeoIP.VisitNode | googlemap/ip2geo/__init__.py:121-148 | One level of the walk: it reads the node, follows pointer 1 on a set bit and pointer 0 on a clear one, and either ends the whole walk with its result or names the next node, on which the rest of the walk is the same. The cursor ends after the node read |
| GeoIP.GeoIP.SeekCountry | googlemap/ip2geo/__init__.py:117-150 | The loop computes the trie walk from node 0 over bits 31 down to 0, following pointer 1 on a set bit. At most 32 nodes are read, and a pointer found at bit `depth` is the `32 - depth`-th node read |
| GeoIPFormat.SamePrefixSameLeaf | googlemap/ip2geo/__init__.py:119-148 | Two addresses that agree on the bits the walk looked at reach the same terminal pointer |
| GeoIPFormat.SameNetworkSameRecord | googlemap/ip2geo/__init__.py:163-170 | Two addresses in the same network get the same lookup result |
| GeoIPFormat.RecordFor | googlemap/ip2geo/__init__.py:163-170 | The record of one address: None on the sentinel pointer, else the record decoded from FULL_RECORD_LENGTH bytes at the record offset. Its contract: it fails only with a walk error, a short read or an unknown country, and a record found has coordinates in range |
| GeoIPFormat.RecordForNoneIffSentinel | googlemap/ip2geo/__init__.py:163-165 | There is no record exactly when the walk ends on the pointer equal to the segment count |
| GeoIPFormat.RecordForEncoded | googlemap/ip2geo/__init__.py:163-170 | A record written at `pointer + (2*3 - 1) * segments`, within FULL_RECORD_LENGTH bytes, is the record the lookup returns |
| GeoIP.GeoIP.GetRecord | googlemap/ip2geo/__init__.py:152-263 | Returns the walk's error, or None on the sentinel pointer, or the record decoded from the FULL_RECORD_LENGTH bytes read at the record offset |
| GeoIPFormat.StringLength | googlemap/ip2geo/__init__.py:180-187 | The `str_length` count from one position. Its contract: on success the NUL it stops at lies inside the buffer; the only failure is a short read |
| GeoIPFormat.ReadField | googlemap/ip2geo/__init__.py:183-191 | One NUL-terminated field: its bytes and the position after its NUL; it fails only on a short read |
| GeoIPFormat.ReadStrings | googlemap/ip2geo/__init__.py:174-220 | Region, city and postal code, from position 1 and each after the previous NUL; it fails only on a short read |
| GeoIPFormat.Fixed | googlemap/ip2geo/__init__.py:224-236 | A 3-byte little-endian value at one position. Its contract: the value is below `2^24`, and the only failure is a short read |
| GeoIPFormat.DmaArea | googlemap/ip2geo/__init__.py:238-250 | DMA and area codes by edition and country. Its contract: they are present together or not at all, an area code is below 1000, and the only failure is a short read |
| GeoIPFormat.DecodeNumbers | googlemap/ip2geo/__init__.py:222-261 | The coordinates, DMA, area, metro code and time zone from the cursor on, completing the record; it fails only on a short read |
| GeoIPFormat.DecodeRecord | googlemap/ip2geo/__init__.py:172-263 | The whole record from its buffer; it fails only on a short read or an unknown country |
| GeoIP.ScanString | googlemap/ip2geo/__init__.py:180-187 | The `str_length` loop computes the distance to the first NUL at or after the start; it fails when it indexes past the buffer |
| GeoIPFormat.StringLengthFindsNul | googlemap/ip2geo/__init__.py:183-212 | The string length is `n` if and only if there is a NUL at `start + n` and none before it. The scan fails if and only if there is no NUL at or after the start |
| GeoIPFormat.StringAt | googlemap/ip2geo/__init__.py:183-191 | A NUL-free string followed by a NUL reads back as exactly itself and moves the cursor by its length plus 1 |
| GeoIP.ScanField | googlemap/ip2geo/__init__.py:183-191 | One string field: the bytes before the NUL and the position after it |
| GeoIP.ParseStrings | googlemap/ip2geo/__init__.py:174-220 | Region, city and postal code, each read from the byte after the previous NUL, starting after the country byte |
| GeoIP.ParseNumbers | googlemap/ip2geo/__init__.py:222-263 | Latitude and longitude as 3-byte values less the bias. On Rev1 US records, 3 more bytes split by div/mod 1000 into DMA and area; none for Rev1 non-US; 0 and 0 on other editions |
| GeoIP.ParseRecord | googlemap/ip2geo/__init__.py:172-263 | The whole record decoder, step by step, computes `DecodeRecord`, including its truncation and unknown-country failures |
| GeoIPFormat.StringsLaidOut | googlemap/ip2geo/__init__.py:174-220 | Three NUL-free strings laid out after the country byte read back as themselves, and the cursor ends just after the third NUL |
| GeoIPFormat.DecodeEncodeRecord | googlemap/ip2geo/__init__.py:172-263 | Decoding a written record, whatever follows it, gives back its fields. An empty region or postal code comes back absent and an empty city stays empty; DMA and area come back as the edition and country call for |
| GeoIPFormat.FixedAt | googlemap/ip2geo/__init__.py:224-236 | A 3-byte value reads back as itself and moves the cursor by exactly 3 |
| GeoIPFormat.DmaAreaEncoded | googlemap/ip2geo/__init__.py:238-250 | The combined value `dma*1000 + area` of a Rev1 US record splits back into its DMA and area codes |
| GeoIPFormat.NumbersEncoded | googlemap/ip2geo/__init__.py:222-261 | Written coordinates and DMA/area value decode back to the expected record fields |
| GeoIPFormat.NumbersFrom | googlemap/ip2geo/__init__.py:222-247 | The numeric fields depend only on the bytes from the cursor on |
| GeoIPFormat.DecodedFieldsInRange | googlemap/ip2geo/__init__.py:222-247 | Decoded coordinates are at least -1800000 and below `2^24 - 1800000`; an area code is below 1000; `dma*1000` is below `2^24` |
| GeoIPFormat.DecodedEditionFields | googlemap/ip2geo/__init__.py:238-261 | On editions other than Rev1, DMA and area are 0. On Rev1 they are present if and only if the country is US. The metro code is the map's entry for a present DMA code, else empty. An absent region or postal code is never an empty string |
| GeoIPFormat.Lookup | googlemap/ip2geo/__init__.py:275-290 | The checks and the record shared by both lookups. Its contract: a missing or zero address is rejected first; a success needs a valid address and a City edition and has coordinates in range |
| GeoIPFormat.LocationFor | googlemap/ip2geo/__init__.py:307-323 | The location lookup: the record's longitude and latitude. Its contract: both are in range |
| GeoIPFormat.TimeZoneFor | googlemap/ip2geo/__init__.py:275-290 | The time-zone lookup: the record's zone name, or None when it is empty. Its contract: a success needs a City edition, and a name returned is never empty |
| GeoIP.GeoIP.IpAddressToTimezone | googlemap/ip2geo/__init__.py:265-294 | Rejects a missing or zero address, then a non-City edition, without moving the cursor. Otherwise returns the record's time-zone name, or None when it is empty; no record is an error |
| GeoIP.GeoIP.IpAddressToLocation | googlemap/ip2geo/__init__.py:297-327 | The same checks; then the record's longitude and latitude, read in two separate record lookups that agree |
| GeoIPFormat.LookupNoRecordIffSentinel | googlemap/ip2geo/__init__.py:275-290 | A lookup fails for lack of a record exactly when the address and edition are valid and the walk ends on the sentinel pointer |
| GeoIPFormat.LocationOfWrittenRecord | googlemap/ip2geo/__init__.py:307-323 | The location lookup of an address whose walk reaches a written record reports that record's longitude and latitude |
| GeoIPFormat.TimeZoneOfWrittenRecord | googlemap/ip2geo/__init__.py:275-290 | The time-zone lookup of such an address reports the table's zone for its country and region, or None when the table has none or an empty name |
| Bytes.ReadLittleEndian | googlemap/ip2geo/__init__.py:224-227 | The byte loop accumulates `byte << 8j` to the little-endian value of the bytes read |
| Bytes.DecodeEncode | googlemap/ip2geo/__init__.py:96-99 | A value below `256^n` written as `n` little-endian bytes reads back as itself |
| Bytes.EncodeDecode | googlemap/ip2geo/__init__.py:130-134 | `n` bytes read as a little-endian value and written back give the same bytes |
| Bytes.LittleEndianSnoc | googlemap/ip2geo/__init__.py:132-134 | Adding the next byte at `<< 8j` extends the little-endian value by one byte |
| Bytes.LittleEndianBound | googlemap/ip2geo/__init__.py:224-236 | An `n`-byte little-endian value is below `256^n` |

## Left out

- File opening (`__init__`, lines 56-72) is not modelled. The plain, gzip and mmap modes are one immutable
  byte sequence. The memory-cache trie walk reads the same bytes that a seek and a read would return.
- Under Python 2 in mmap mode, the trailer comparison compares a byte string with a unicode string. That
  comparison never succeeds. The model always compares bytes.
- GeoIP.Open: opens every mode at position 0. In memory-cache mode, lines 66 and 69 read the whole file
  before the trailer scan calls `tell()` (line 84). The scan there starts from, and restores, the end of
  the file. The model does not reproduce that position.
- GeoIP.Open: a gzipped database goes through `gzip.GzipFile`, whose Python 2.7 `seek` refuses an
  end-relative seek. The `seek(-3, os.SEEK_END)` at line 85 therefore raises, and such a file can never be
  opened. The model scans the same bytes successfully. This rests on the text of Python 2.7's gzip module
  and was not executed.
- `GeoIPMetaclass` (lines 23-39) is left out: it creates classes and holds no state the reader uses.
- `const`, `ip2long` and `time_zone_by_country_and_region` are not part of this model. The tables and the
  time-zone function are a parameter, and the parsed address is a parameter of type `Option<nat>`.
- `pytz.timezone` is not modelled. The time-zone lookup returns the zone's name, not a tzinfo object, and an
  unknown zone name is not rejected.
- Coordinates are integers in ten-thousandths of a degree, not the floats `raw / 10000.0 - 180.0`.
  Floating-point rounding is not modelled.
- The other fields of a failed open are not modelled. `Open` returns only the error, because the constructor
  raises and no reader exists afterwards.
- `GeoIP.GeoIP.SetupSegments` leaves the file position unspecified when it fails. In that case the original
  raises before restoring it.
- GeoIP.GeoIP.SeekCountry: does not state where the cursor ends up. Every read it makes seeks first, and no
  caller depends on the cursor.
- GeoIP.GeoIP.GetRecord: does not state where the cursor ends up, for the same reason.
- GeoIP.GeoIP.IpAddressToLocation: does not state where the cursor ends up after its record reads, for the
  same reason. It does state that the cursor is kept when the address or the edition is rejected.
- GeoIP.GeoIP.IpAddressToTimezone: does not state where the cursor ends up after its record read, for the
  same reason. It does state that the cursor is kept when the address or the edition is rejected.
- GeoIP.GeoIP.ReadTrailerFields: does not state the cursor after a short read. The scan then fails, and
  opening raises.
- The record dictionary is a `Record` value. Absent keys are None, and `country_code`, which the decoder
  always sets, is a plain field.
- The address number is an unbounded `nat`. Only its 32 low bits are looked at, as in the original.
