# holidei: holiday catalogue and closest-holiday selection

holidei is ESP8266 firmware. Once per loop tick it reads the clock, fetches a
year of public holidays from a web service when it has none, finds the
closest upcoming national holiday and shows it on an OLED screen. This
project models the logic at the centre of that firmware:

- **Ingestion** (`updateHolidays`). An OK response is a sequence of already
  parsed records `{date, name, isNational}`. The firmware drops every record
  not flagged national and `push_front`s each remaining one onto the global
  `std::list<Holiday>`. A connection or status failure changes nothing.
- **Selection** (`updateClosestHoliday`). It walks the list in stored order
  and copies the first holiday that passes the candidate test into the
  global `closestHoliday`. It then reports success, or reports failure and
  leaves the cache alone.
- **Caching step of a tick** (lines 103-110 of `loop`). An empty list is
  loaded with the current year. The search runs only while the cached
  holiday's `tm_year` is 0, the zero-initialised sentinel. If that search
  fails, next year is loaded and the search is retried once.
- **Date formatting** (`padZero`, `tmToStringDate`). Numbers are
  zero-padded to two digits, and a `struct tm` is rendered as `YYYY-MM-DD`
  using its offsets: year + 1900 and month + 1.

The modules:

- `Dates` (dates.dfy) holds `Tm`, the date part of a `struct tm`, along
  with the decimal rendering of Arduino's `String(int)`, `PadZero` and
  `TmToStringDate`.
- `Catalog` (catalog.dfy) holds the value-level specification and the
  lemmas about it. `Ingested` is the list after one ingestion: the national
  records reversed, placed ahead of the old list. `Qualifies` is the
  candidate test as written, and `FirstQualifying` is the first passing
  holiday in stored order.
- `Holidei` (holidei.dfy) holds class `State`, whose two fields stand for
  the two globals. Its methods `UpdateHolidays`, `UpdateClosestHoliday`
  and `Tick` update those fields in place with the source's own loops. A
  ghost field `arrived` records every record delivered so far. The class
  invariant says the list is exactly the national part of `arrived`,
  newest first.

There are two kinds of input. The clock reading ("now") is a `Tm`
parameter. The holiday service is a parameter `fetch: int -> Response`,
which gives the answer for each year: `Failed`, or `Ok(records)`.

The day test applies whatever the month (src/holidei.cpp:175-176): a
candidate is skipped when the reference month is later, and also when the
reference day of the month is later. So on 15 January a holiday on
1 February is skipped (`Catalog.LaterMonthSmallerDayRejected`).

## Model

| member | source | states |
|---|---|---|
| `Dates.NatToString` | src/holidei.cpp:124 | the decimal numeral is a non-empty string of digits, and it is one character long exactly when the number is below 10 |
| `Dates.NatToStringRoundTrip` | src/holidei.cpp:124 | reading back the numeral of n gives n |
| `Dates.NatToStringCanonical` | src/holidei.cpp:124 | the numeral has no leading zero, and its first digit is '0' only for the number 0 |
| `Dates.CanonicalRoundTrip` | src/holidei.cpp:124 | every numeral without a leading zero is the rendering of the number it denotes |
| `Dates.IntToStringReadsBack` | src/holidei.cpp:124 | a non-negative integer renders as a numeral without leading zeros that reads back as the integer; a negative one as '-' followed by such a numeral that reads back as its magnitude |
| `Dates.PadZero` | src/holidei.cpp:123-129 | for 0..9 the result is "0" followed by the digit; for 10 and above it is the plain numeral; a negative number is not padded; the result is never shorter than two characters |
| `Dates.PadZeroTwoDigits` | src/holidei.cpp:123-129 | for 0..99 the result is exactly two digits that read back as the number |
| `Dates.PadZeroOfTwoDigits` | src/holidei.cpp:123-129 | any two digits, read as a number and padded again, give the same two digits back |
| `Dates.FormatThenParse` | src/holidei.cpp:131-136 | for a year from 0 on and a month and day that each fit in two digits, reading the rendered `YYYY-MM-DD` back yields the same year, month and day offsets |
| `Dates.ParseThenFormat` | src/holidei.cpp:131-136 | a `YYYY-MM-DD` text whose year has no leading zero, once read, renders back to the same text |
| `Dates.ChristmasRendering` | src/holidei.cpp:131-136 | year offset 125, month 11, day 25 renders as "2025-12-25", and that text reads back to the same offsets |
| `Catalog.NationalMembers` | src/holidei.cpp:152-154 | a holiday is kept by the filter exactly when it comes from a record flagged national |
| `Catalog.NationalEmpty` | src/holidei.cpp:152-154 | the filter keeps nothing exactly when no record is flagged national |
| `Catalog.NationalLength` | src/holidei.cpp:152-154 | the filter keeps at most as many holidays as records, and exactly as many when every record is national |
| `Catalog.ReverseAt` | src/holidei.cpp:161-166 | the k-th element of the reversed sequence is the k-th from the end of the original |
| `Catalog.PushFrontStep` | src/holidei.cpp:152-166 | taking one more record of a batch leaves the list as it was when the record is not national, and otherwise puts that record's holiday in front |
| `Catalog.IngestedLayout` | src/holidei.cpp:161-166 | after ingestion the list grows by exactly the number of national records; the old list is its unchanged tail; the k-th new entry is the k-th national record counted from the last one |
| `Catalog.IngestedUnchanged` | src/holidei.cpp:146-154 | ingestion leaves the list equal to the old one exactly when the fetch failed or the batch holds no national record |
| `Catalog.IngestedMembers` | src/holidei.cpp:152-166 | after ingestion a holiday is in the list exactly when it was there before or comes from a national record of the batch |
| `Catalog.IngestedAccumulates` | src/holidei.cpp:139-170 | ingesting batch after batch gives the national part of all records ever received, in reverse arrival order |
| `Catalog.FirstQualifyingFound` | src/holidei.cpp:172-185 | the search succeeds exactly when some stored holiday passes the month and day tests; on an empty list it fails |
| `Catalog.FirstQualifyingIsFirst` | src/holidei.cpp:174-182 | a successful search returns a stored holiday that passes the tests, and no holiday stored before it passes them |
| `Catalog.FirstQualifyingOfFirst` | src/holidei.cpp:174-182 | conversely, the first passing holiday in stored order is the one the search returns |
| `Catalog.FirstQualifyingPrefix` | src/holidei.cpp:174-183 | searching a list made of a front part and a rest returns the front part's answer when it has one, and otherwise the rest's |
| `Catalog.RetrySearchesNewBatch` | src/holidei.cpp:104-110 | when the first search failed, the retry after ingesting next year answers from the newly ingested batch alone |
| `Catalog.LaterMonthSmallerDayRejected` | src/holidei.cpp:175-176 | a holiday in a later month than the reference, with a smaller day of the month, is rejected |
| `Catalog.StoredOrderScenarios` | src/holidei.cpp:172-185 | with 29 November stored before 25 December: a 1 December reference picks Christmas, a 1 January reference picks 29 November, and 26 December or 30 January find nothing |
| `Holidei.State.constructor` | src/holidei.cpp:35-42 | at power-on the list is empty and the cached holiday is zero-initialised (empty name, all date fields 0) |
| `Holidei.State.UpdateHolidays` | src/holidei.cpp:139-170 | the new list is the national records of an OK response in reverse arrival order, followed by the old list; a failed fetch leaves it unchanged; the cached holiday is not touched; the class invariant is kept |
| `Holidei.State.UpdateClosestHoliday` | src/holidei.cpp:172-185 | the method reports success exactly when the reference search finds a holiday; the cache then holds that holiday's name, year, month and day; on failure the cache keeps its old value; the list is never modified |
| `Holidei.State.Tick` | src/holidei.cpp:103-110 | an empty list is first loaded with the current year. A cached holiday with non-zero year is left alone, and no search runs. Otherwise one search runs on the loaded list. Only when it fails is year + 1 ingested and searched once more, so the search never runs more than twice. The years fetched are the current year (only if the list was empty) followed by year + 1 (only on a retry), and the records delivered by those fetches, in that order, are appended to the ghost record of arrivals |

## Left out

- Wi-Fi connection loops, display output, `delay` and the weekday-name table: hardware and screen I/O (src/holidei.cpp:49-101, 112-120).
- The NTP clock (`configTime`, `time`, `localtime_r`): "now" is a parameter of `Tick`.
- The HTTPS request, TLS and JSON decoding: `fetch` stands for them, and gives `Failed` whenever the connection cannot be opened or the status is not OK. A body that does not decode as a JSON array has no records, so it is `Ok([])`.
- `strptime`: records arrive with their dates already parsed. The source leaves the date undefined when parsing fails, and the model adds no policy for that case. `Dates.ParseIsoDate` is not the firmware's parser. It is a reference reading of the `YYYY-MM-DD` format, used only to state the formatting round trip.
- `Tm` carries only the year, month and day fields of `struct tm`. These are the only fields the search copies and the formatter reads. The time-of-day fields, and the `padZero` calls that render the clock on screen, are display-only.
- C `int` width: all integers are unbounded. `year + 1900` and the `String(int)` of a negative number never wrap in the model.
- Fetches inside a tick: the firmware calls `updateHolidays`, which fetches over the network. The model receives the fetched years as a pure function, so a service that answers differently on a later tick would need a different `fetch` for each tick.

