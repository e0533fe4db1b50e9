# A Dafny model of the `tools` package

This project models the core of the Go package `tools`, a grab-bag of
helpers for text, CSV, file names and hexadecimal text, and the HTTP helper
`HttpUrl` with its struct-based twin `HttpUrlStruct`. It proves properties of
that model. The modules are:

- `GoStrings`: the pieces of Go's `strings`, `bytes` and `unicode/utf8`
  behaviour that the helpers rely on. These are first-occurrence search,
  `ReplaceAll` with an empty replacement, `Join`, `SplitN`-style cutting,
  `Trim`, `TrimSpace`, `TrimPrefix`, and the UTF-8 conversion `[]byte(s)`.
- `Separators`: `GetLeftOfUnderscore`, `GetRightOfSeparator` and
  `GetMiddleOfSeparator`. Each is a function of its text and separators.
- `Markers`: `GetTextTwoMiddle` and `GetTextTwoMiddleBytes`.
  - They are imperative methods that cut a working text step by step and
    advance a resume position.
  - Each method is proved equal to `TextTwoMiddle`, a specification stated on
    positions in the original text.
  - Go strings are byte strings and the returned position is a byte offset,
    so both methods work over bytes.
- `Csv`: `CSVFieldMapper`, `CSVStringsToLine` and `CleanStrings`.
  - `CSVFieldMapper` updates the caller's map through a pointer, so that map
    is a class `FieldMapping`.
  - `CSVStringsToLine` rewrites the caller's slice in place, so the slice is
    an `array`.
- `Files`: `FilterFileName`, with `filepath.Base` on `/`-separated paths.
- `Hex`: `HexStringToBytes`, `BytesToHexString`, and the `encoding/hex`
  decoding and encoding beneath them.
- `HttpHeaders`: the parts of `HttpUrl` that work on headers:
  - `bufio.Scanner` line splitting, including its too-long-token error;
  - the `Key: Value` parsing loop that sets request headers;
  - `formatHeaders`, which renders a header map in the map's unspecified
    iteration order.
- `HttpClient`:
  - `HttpUrl`, `HttpUrlStruct` and `newEmptyResponse`;
  - the defaults, the steps that can fail before a reply, and the size cap
    with its truncation;
  - the `Content-Encoding` dispatch and the status line.

  The network and the libraries behind it are a `Network` value given as
  input. That covers:
  - parsing the proxy URL;
  - configuring HTTP/2;
  - `http.NewRequest`;
  - `client.Do`;
  - header-key canonicalisation;
  - the decompressors.

## Model

| member | source | states |
|---|---|---|
| Separators.GetLeftOfUnderscore | tools/tools.go:1252-1258 | the result is the prefix before the first occurrence of the key; when the key is absent the result is the whole text |
| Separators.GetRightOfSeparator | tools/tools.go:1266-1272 | the result is the suffix after the first occurrence of the key; when the key is absent the result is the whole text |
| Separators.GetMiddleOfSeparator | tools/tools.go:1284-1297 | the result is the text after the first `left` and up to the first `right` after it; it is "" when `left` is absent or no `right` follows |
| Separators.SplitAtFirst | tools/tools.go:1252-1272 | when the key occurs, the left part, the key and the right part concatenate back to the original text |
| Separators.MiddleHasNoRight | tools/tools.go:1284-1297 | the middle text never contains a non-empty right separator |
| Separators.MiddleExample | tools/tools.go:1281-1283 | the documented example: "abc-123-xyz" with "-" and "-" gives "123" |
| Markers.StartFrom | tools/tools.go:2021-2038 | a start position of -1 or any position not above 0 means the beginning; a position past the end fails; otherwise the working text is the rest of the source from that byte |
| Markers.SkipPast | tools/tools.go:2040-2081 | one search step (offset or start text) succeeds exactly when the marker occurs in the working text; the new position is just past the marker and the working text is what follows it |
| Markers.CutToEnd | tools/tools.go:2083-2105 | the last step gives the text up to the first end marker and the position just past that marker; an empty end marker keeps the rest; a missing one gives -1 with "" or the whole source |
| Markers.CutPast | tools/tools.go:2040-2066 | cutting past a marker in the working text equals moving past its first occurrence in the source from the current position |
| Markers.CutBefore | tools/tools.go:2083-2101 | cutting before the end marker in the working text equals the position-based last step on the source |
| Markers.GetTextTwoMiddle | tools/tools.go:2020-2106 | the returned position and text are those of the position-based specification `TextTwoMiddle` |
| Markers.GetTextTwoMiddleBytes | tools/tools.go:2128-2208 | the byte-slice version returns the same position and text as `TextTwoMiddle` |
| Markers.MissesPropagate | tools/tools.go:2027-2101 | if any step fails, the whole search returns -1 with "" or the whole source, as `fallbackToSource` says |
| Markers.MiddleBeforeEnd | tools/tools.go:2083-2105 | with a non-empty end marker, a found text lies directly before an end marker; the position points just past that marker; the text contains no end marker |
| Markers.UpToMarkerFound | tools/tools.go:2083-2089 | the same property for the last step on its own |
| Markers.MiddleToEndOfText | tools/tools.go:2083-2105 | with an empty end marker, the found text is everything from the returned position to the end |
| Markers.MiddleNonPositiveStart | tools/tools.go:2023-2038 | every start position not above 0 (including -1) gives the same result as 0 |
| Markers.MiddleMisses | tools/tools.go:2027-2101 | the search fails when the start is past the end, or when any non-empty marker does not occur after the start |
| Markers.SampleExampleOne | tools/tools.go:2007-2011 | documented example 1: after "MM", the text between the next two "你好" is "HelloWord", at byte position 72 |
| Markers.SampleExampleTwo | tools/tools.go:2015-2019 | documented example 2: with no end marker, the result is "HelloWord你好对" at position 57 |
| Markers.SampleDemo | main.go:13-16 | the demo call (offset "a") returns "测试" at position 26 |
| Csv.FieldMapping.constructor | tools/tools.go:1869 | a fresh mapping is empty |
| Csv.Lookup | tools/tools.go:1891-1900 | row mode succeeds exactly when the name is mapped to a position inside the row, and returns that field; otherwise it reports not-found or out-of-range |
| Csv.CSVFieldMapper | tools/tools.go:1878-1901 | a nil mapping is an error; header mode records every field's position and returns ""; row mode returns `Lookup` and leaves the mapping unchanged |
| Csv.IndexedEntries | tools/tools.go:1883-1889 | after header mode, a header name maps to its last position in the header; other keys keep their old value; no other key is added |
| Csv.HeaderThenRow | tools/tools.go:1883-1900 | after a header, a row of the same width yields, for every header name, the field in that name's last column |
| Csv.MapperExample | tools/tools.go:1867-1877 | the documented example: header id,name,age maps to 0,1,2, and row 1,Tom,18 gives "Tom" for "name" |
| Csv.CSVStringsToLine | tools/tools.go:1407-1427 | the caller's slice has every comma removed in place; the line is the UTF-8 of the comma-joined, scrubbed text, plus CR LF when asked |
| Csv.ScrubCount | tools/tools.go:1417-1419 | scrubbing drops every quote, CR and LF and keeps every other character with its count |
| Csv.CleanFieldFree | tools/tools.go:1408-1419 | a cleaned field holds no comma, quote, CR or LF |
| Csv.NoCommasFree | tools/tools.go:1408-1412 | after the in-place rewrite no field holds a comma |
| Csv.JoinedCommas | tools/tools.go:1408-1414 | the joined comma-free fields hold exactly one comma per separator |
| Csv.ScrubJoin | tools/tools.go:1413-1419 | scrubbing the joined text equals joining the cleaned fields |
| Csv.CsvTextSplits | tools/tools.go:1407-1427 | round trip: splitting the line's text on commas gives back one piece per field, each the cleaned field |
| Csv.CsvTextCounts | tools/tools.go:1408-1419 | the text holds |fields|-1 commas and no quote, CR or LF |
| Csv.CsvLineCounts | tools/tools.go:1407-1427 | the byte line holds |fields|-1 commas and no quote; it holds exactly one CR and one LF with a line break, and none without |
| Csv.CsvLineBreak | tools/tools.go:1421-1426 | the line with a break is the line without one, followed by bytes 13 and 10 |
| Csv.CleanStrings | tools/tools.go:1981-1992 | the result has the input's length and order, and each element is the input element cleaned |
| Csv.CleanIsTidy | tools/tools.go:1984-1989 | a cleaned field holds no tab and neither starts nor ends with white space |
| Csv.CleanKeepsTidy | tools/tools.go:1984-1989 | a field without tabs and with no quote or space at its ends is unchanged (idempotence on tidy fields) |
| Csv.CleanQuotesOutside | tools/tools.go:1984-1988 | quotes outside the spaces are removed, then the spaces and the tab |
| Csv.CleanQuotesInside | tools/tools.go:1984-1988 | quotes inside the spaces stay, because quotes are trimmed before spaces |
| Files.Base | tools/tools.go:1514 | the base name is never empty and contains no slash unless it is "/" |
| Files.BaseOfPath | tools/tools.go:1514 | the base name of dir/name, with any number of trailing slashes, is name |
| Files.BaseOfName | tools/tools.go:1514 | a bare name, with or without trailing slashes, is its own base name |
| Files.BaseOfRoot | tools/tools.go:1514 | the empty path has base name "."; a path of slashes only has base name "/" |
| Files.FilterFileName | tools/tools.go:1513-1532 | the result is true exactly when the base name contains every keyword; with no keywords it is true |
| Hex.DecodeHexOutcome | tools/tools.go:1022-1027 | decoding succeeds exactly when every character is a hex digit, and then gives half as many bytes; otherwise the error names the first bad character |
| Hex.DecodeEncode | tools/tools.go:1022-1027 | decoding the lower-case encoding of any bytes gives those bytes back |
| Hex.Normalize | tools/tools.go:1009-1019 | the text handed to the decoder always has even length |
| Hex.HexStringToBytes | tools/tools.go:1007-1030 | the conversion decodes the normalised text; what it yields is stated by `HexStringOutcome` (success exactly on all-digit text, half its length in bytes), `HexRoundTrip`, `HexStringPrefixed`, `HexStringEscaped` and `HexStringOdd` |
| Hex.HexStringOutcome | tools/tools.go:1007-1030 | conversion succeeds exactly when the normalised text is all hex digits, and then gives half its length in bytes |
| Hex.HexStringPlain | tools/tools.go:1006 | "a0d1" converts to bytes A0 D1 |
| Hex.HexStringPrefixed | tools/tools.go:1006-1009 | a "0x" or "0X" prefix before upper-case digits converts back to the encoded bytes |
| Hex.HexStringEscaped | tools/tools.go:1006-1015 | the backslash-and-space form "\A0 \D1" of any bytes converts back to them |
| Hex.NormalizeDigits | tools/tools.go:1007-1019 | text of lower-case digits alone reaches the decoder unchanged, with a leading "0" exactly when its length is odd |
| Hex.HexStringOdd | tools/tools.go:1016-1019 | an odd-length input reads its first digit as a whole byte and then the remaining pairs |
| Hex.BytesToHexString | tools/tools.go:1055-1073 | the result is two upper-case digits per byte, joined by single spaces when asked (the `HexText` specification) |
| Hex.EncodeHexPairs | tools/tools.go:1061-1064 | characters 2i and 2i+1 of the encoding are the two digits of byte i |
| Hex.HexTextLength | tools/tools.go:1055-1073 | the length is 2n without spaces; with spaces it is 3n-1, or 0 for no bytes |
| Hex.HexTextExample | tools/tools.go:1046-1050 | the documented example: 12 AB 34 CD gives "12AB34CD" |
| Hex.HexTextSpacedExample | tools/tools.go:1052-1054 | the documented example: with spaces it gives "12 AB 34 CD" |
| Hex.HexRoundTrip | tools/tools.go:1007-1073 | round trip: `HexStringToBytes(BytesToHexString(d, sp))` gives `d` back, with or without spaces |
| HttpHeaders.ScanSegmentsTooLong | tools/http.go:144-154 | the scanner reports an error exactly when some line segment is at least 64 KiB in UTF-8 |
| HttpHeaders.ScanJoin | tools/http.go:144-151 | lines joined by LF, none too long, scan back to those lines without their trailing CR and without a final empty line |
| HttpHeaders.HeaderFieldSplit | tools/http.go:147-150 | a line yields a field exactly when it contains ':'; the key has no ':', and key and value are trimmed of white space |
| HttpHeaders.HeaderField | tools/http.go:147-149 | the key and value a line sets, or none; stated by `HeaderFieldSplit` (a field exactly when the line has ':', trimmed key without ':') and `FieldOfLine` |
| HttpHeaders.FieldOfLine | tools/http.go:147-149 | a line "k: v" with trimmed k and v yields exactly (k, v) |
| HttpHeaders.OutgoingRequest.constructor | tools/http.go:133 | a new request has no headers |
| HttpHeaders.OutgoingRequest.Set | tools/http.go:149 | `Header.Set` replaces every value of the canonical key with the single new value; other keys are unchanged |
| HttpHeaders.SetHeaderText | tools/http.go:138-154 | the request's header is the old one, plus the cookie, plus every parsed line applied in order; the scan-error flag is the scanner's |
| HttpHeaders.LastWins | tools/http.go:144-151 | a key takes the value of the last line that sets it |
| HttpHeaders.Untouched | tools/http.go:144-151 | a key no line sets keeps its value, or stays absent |
| HttpHeaders.CookieLineWins | tools/http.go:138-151 | a Cookie line in the header text overrides the cookie parameter |
| HttpHeaders.AppendKeyLines | tools/http.go:314-316 | appends one "k: v\r\n" line per value of a key, in value order |
| HttpHeaders.FormatHeaders | tools/http.go:311-319 | the result renders every key exactly once, in some order, each value as "k: v\r\n" |
| HttpHeaders.FieldLinesCount | tools/http.go:311-319 | the rendering has one line per value |
| HttpHeaders.ScanTerminated | tools/http.go:311-319 | CRLF-terminated lines that the scanner can read scan back to exactly those lines |
| HttpHeaders.FormatReadBack | tools/http.go:311-319 | round trip: scanning a rendering gives its lines, one per value; setting them again gives every key its last value |
| HttpClient.EmptyResponse | tools/http.go:47-57 | the response of every early failure; `EarlyOrFilled` states it has status 0, no headers and no body |
| HttpClient.StatusLineParts | tools/http.go:296 | the status line splits back into protocol, status text and the closing CR LF |
| HttpClient.Receive | tools/http.go:170-293 | a size error returns exactly cap bytes; a read error returns the stream as read, at most cap + 1 bytes, and cap + 1 only when the error came with the byte past the cap; `SizeCap` and `ReceiveDispatch` state every outcome in terms of the stream |
| HttpClient.Decode | tools/http.go:198-293 | the Content-Encoding switch; its outcomes are stated by `ReceiveDispatch` |
| HttpClient.SizeCap | tools/http.go:170-196 | a body over the cap is an error cut to its first cap bytes even if the stream fails later, except that an error arriving with the one byte past the cap is a read error with all cap + 1 bytes; a body within the cap is kept whole, with a read error if the stream failed and otherwise decoded |
| HttpClient.ReceiveDispatch | tools/http.go:198-293 | other encodings keep the body; a decompressor that cannot open keeps the raw body with an error; a failed read gives an empty body with an error; otherwise the body is the decoded bytes |
| HttpClient.Fetch | tools/http.go:78-308 | the outcome of HttpUrl in the order its steps can fail, with the body read as `Receive` reads it (including a read error that comes with the last bytes); `HttpUrl` is proved to answer it, `DefaultCap` and `StructAsUrl` relate it across arguments |
| HttpClient.HttpUrl | tools/http.go:78-308 | the error and response are those `Fetch` prescribes: the empty response on every early failure, otherwise the reply's status, headers, status line, one rendering of the headers and the capped or decoded body |
| HttpClient.EarlyOrFilled | tools/http.go:89-308 | an early failure returns an error with the empty response; a reply always yields a well-formed status line; a size error returns exactly cap bytes and a read error at most cap + 1 |
| HttpClient.Int64Succ | tools/http.go:171 | int64 successor: it stays in range, below the largest value it is n+1, and at the largest value it wraps to the smallest |
| HttpClient.ReceiveAsWritten | tools/http.go:170-196 | the size check with int64 arithmetic and the same limited read as `Receive` (including an error that comes with the last bytes), None where Go panics; `LargestCapPanics` and `AsWrittenBelowLargest` state when that happens |
| HttpClient.LargestCapPanics | tools/http.go:171-194 | with the cap at the largest int64, the code as written reaches an out-of-range slice on every reply |
| HttpClient.AsWrittenBelowLargest | tools/http.go:171-196 | below the largest int64, the code as written agrees with the corrected size check |
| HttpClient.HttpRequest.constructor | tools/http.go:22-33 | the record holds exactly the given arguments |
| HttpClient.WithDefaults | tools/http.go:327-339 | the timeout defaults to 30 and the cap to 200 MiB when not positive; every other field is unchanged |
| HttpClient.HttpUrlStruct | tools/http.go:322-354 | a nil request gives the nil-request error and the empty response; otherwise the defaults are written into the request and the result is what `HttpUrl` gives on its fields |
| HttpClient.DefaultCap | tools/http.go:101-104 | a cap below 1 behaves exactly as 200 MiB |
| HttpClient.StructAsUrl | tools/http.go:341-353 | with a positive timeout, the struct call comes to the same outcome as `HttpUrl` with the same arguments |

## Left out

- The network is an input (`Network`). This covers TLS, proxy use, HTTP/2, redirect handling, timeouts, `client.Do`, `http.NewRequest`, `url.Parse` and the gzip, zlib, brotli and zstd decompressors. The model keeps only whether each step succeeds and what it returns.
- The model does not control whether redirects are followed; `allowRedirects` is passed on to the sender unchanged.
- Header-key canonicalisation (`http.CanonicalHeaderKey`) is a function parameter. `Rereadable` states the condition under which it leaves the formatted keys alone.
- Go's transport may decompress gzip transparently, so the body the model receives is the stream `client.Do` hands back.
- A nil and an empty byte slice are both the empty sequence: `postData`, and the nil text `GetTextTwoMiddleBytes` returns on a miss without fallback, which the model returns as the empty sequence. `HttpUrlStruct`'s `Headers == ""` assignment changes nothing and is not modelled.
- `time.Duration(timeout) * time.Second` overflow is not modelled; the timeout is passed to the sender as an integer.
- Error messages are `Failure` constructors, one per message; the wrapped library error text is not kept.
- HttpUrl: models the size check with the corrected cap + 1 (see Findings). `ReceiveAsWritten` models the int64 arithmetic as written.
- A reply body is its bytes, whether it ends in a read error, and whether that error comes back from the same Read call as the last bytes (`Reply.failsWithLast`). Where else the stream splits its bytes between Read calls is not modelled: under `io.LimitedReader` and `io.ReadAll` it changes neither the bytes read nor the error.
- The header lines set before the scanner fails are not observable, because the request is then never sent. `SetHeaderText` still states them.
- Case mapping (`strings.ToLower` / `ToUpper`) is ASCII-only. No other rune maps onto a hex digit, `x`, a backslash or a space, so `HexStringToBytes` gives the same success or failure. Its error carries the offending character where `encoding/hex` reports the offending byte.
- `filepath.Base` uses `/` as the only separator (the Unix behaviour); Windows volume names and `\` are not modelled.
- CSVFieldMapper: a non-nil pointer to a nil map panics in header mode in Go; the model has only a nil pointer and a map.
- The strings of `Separators`, `Csv` and `Files` are sequences of characters, not bytes. Splitting valid UTF-8 on valid UTF-8 gives the same pieces either way. `CSVStringsToLine` converts to UTF-8 bytes at the end, as `[]byte(s)` does.
- `GetTextTwoMiddle` re-checks a bound after a marker is found (`len(sourceText) >= pos+len(offset)`, `endPos >= 0`). Those checks always hold, so their failure branches are not modelled.
- GetTextTwoMiddleBytes: in Go the returned slice is a subslice of the caller's `sourceText` (or, on a miss with fallback, that very slice), so it shares the input's backing array and a write through it changes the input; the model returns the bytes as a value and does not capture that aliasing.
- The other functions of tools.go (file, time, conversion, URL-encoding and other helpers) and the rest of main.go are not part of this model.

## Findings

| source | as written | input that shows it | evidently intended | confidence | as-written member | corrected member |
|---|---|---|---|---|---|---|
| tools/http.go:171 | the limit `MaxResponseSize + 1` is computed in int64, and at the largest int64 it wraps to the smallest. The limited reader then returns nothing and reports the limit reached, so `body[:MaxResponseSize]` (line 194) slices past the end and panics | `MaxResponseSize = 9223372036854775807`, any reply | read at most cap + 1 bytes without wrap-around and cut an over-long body to the cap | not executed | HttpClient.LargestCapPanics | HttpClient.SizeCap |
