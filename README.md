# GWAS data loader and `<U+XXXX>` decoder, modelled in Dafny

This project models the two pieces of logic in the OpenGWAS website's
JavaScript that can be stated precisely once the browser is abstracted away.

- **The cache loader** of `js/gwas-storage.js` (module `GwasStorage`,
  `gwas_storage.dfy`). `loadData(target, onProgress)` looks the target up in the
  fixed `keys_and_urls` table. It reads the cached `{data, etag}` record from the
  IndexedDB object store and fetches the document with `If-None-Match: <etag>`
  when the cached ETag is truthy (the validator mechanism of section 3.2 of
  RFC 7232). On a 304 it returns the cached document. Otherwise it streams the
  body chunk by chunk, reporting progress, joins the chunks into one buffer,
  decodes and parses it, overwrites the one record under the target's key, and
  returns the new document. The store is the class `GwasStore` over a
  `map<string, Record>`. `fetch` is a parameter `server: Request -> Response`.
  A response is a status, the parsed Content-Length, the ETag and the body
  chunks. `TextDecoder` and `JSON.parse` are the parameters `textDecode` and
  `jsonParse`. The progress callback is modelled by the sequence of values it
  receives.
- **The escape decoder** `parseUnicodeString` of `js/utils.js` (module
  `UnicodeEscape`, `utils.dfy`). It replaces every `<U+` + 4 to 6 hex digits +
  `>` by the character with that code point. A JavaScript string is modelled as
  a sequence of UTF-16 code units. The regular expression becomes an explicit
  scanner (`MatchAt`, `HexRun`), proved equal to the pattern's declarative
  reading. `String.replace` becomes a recursive left-to-right pass.

`wrappers.dfy` holds the `Option` and `Result` datatypes both modules use.

Facts about the code that the model keeps:

- There is no "invalid encoding" error. `new TextDecoder('utf-8')` is not fatal and
  substitutes U+FFFD, so `textDecode` is total.
- A target that is not in the table fails with the `TypeError` of
  `keys_and_urls[target].key` (`UnknownTarget`). A name that every object
  inherits from `Object.prototype` (`constructor`, `toString`, `__proto__`, …)
  raises no `TypeError`. Its `.key` is undefined, and `getFromDB(db, undefined)`
  rejects with a `DataError` (`DataError`). Both happen after `openDB()` has
  run, but before any write or request.
- A 304 with nothing cached fails with the `TypeError` of `cached.data`
  (`NoCachedRecord`). A 304 for a record whose ETag is null or empty returns
  that record's data.
- A 204 or 205 response is ok but has a null body, so `response.body.getReader()`
  throws a `TypeError` (`NullBody`) before any chunk is read or any progress is
  reported. Nothing is written.
- Progress fires exactly once per chunk when Content-Length parses to a
  non-zero number and a callback is given, and never otherwise. A negative
  Content-Length is truthy, so it reports values that never increase and are
  never positive.

## Model

| member | source | states |
|---|---|---|
| `GwasStorage.LookupTarget` | js/gwas-storage.js:6-15 | exactly the targets `gwasinfo` and `batches` resolve, to their own key and URL. A name inherited from `Object.prototype` fails with `DataError`; any other name fails with `UnknownTarget` |
| `GwasStorage.IsOk` | js/gwas-storage.js:60 | `response.ok` holds exactly for the 2xx class (status / 100 == 2), which never includes 304 |
| `GwasStorage.CachedEtag` | js/gwas-storage.js:102 | the validator is present exactly when a record is cached and its ETag is truthy (`Truthy`: neither null nor the empty string), and then it is that ETag verbatim |
| `GwasStorage.ConditionalHeaders` | js/gwas-storage.js:56 | the request carries no header except `If-None-Match`; it carries that header exactly when the validator is truthy (`Truthy`: neither null nor the empty string), with the validator as its value |
| `GwasStorage.FirstLoadIsUnconditional` | js/gwas-storage.js:102 | with no cached record the request has no headers |
| `GwasStorage.StoredEtagRevalidates` | js/gwas-storage.js:99-111 | after storing `{data, etag}`, the next request carries that ETag verbatim when it is truthy and no header otherwise |
| `GwasStorage.Concat` | js/gwas-storage.js:79-84 | the joined buffer is as long as all the chunks together |
| `GwasStorage.ConcatAppend` | js/gwas-storage.js:79-84 | joining two runs of chunks is joining each run and then the two results |
| `GwasStorage.TotalLengthCountsEveryChunk` | js/gwas-storage.js:73 | `received` counts every chunk in full, and it is zero exactly when every chunk is empty |
| `GwasStorage.TotalLengthMonotone` | js/gwas-storage.js:73 | the running byte count never decreases as chunks arrive |
| `GwasStorage.Percent` | js/gwas-storage.js:75 | the reported value is the floor of received * 100 / total, for a positive or a negative total |
| `GwasStorage.PercentOfTotal` | js/gwas-storage.js:75 | receiving exactly the declared length reports 100 |
| `GwasStorage.PercentMonotone` | js/gwas-storage.js:75 | against a positive total, more bytes never report a smaller percentage |
| `GwasStorage.PercentAntitone` | js/gwas-storage.js:75 | against a negative total, more bytes never report a larger value |
| `GwasStorage.PercentNegative` | js/gwas-storage.js:75 | against a negative total, no value is positive |
| `GwasStorage.ProgressValues` | js/gwas-storage.js:69-77 | one value per chunk; the k-th is the percentage of the bytes in the first k chunks |
| `GwasStorage.ProgressTrace` | js/gwas-storage.js:74 | the callback fires once per chunk when `ReportsProgress` holds (`total && onProgress`: a callback and a parsed, non-zero Content-Length), and never otherwise |
| `GwasStorage.ProgressNonDecreasing` | js/gwas-storage.js:73-75 | the reported values never decrease |
| `GwasStorage.ProgressEndsAtHundred` | js/gwas-storage.js:73-75 | when Content-Length equals the bytes received, the last value is 100 |
| `GwasStorage.ProgressAtMostHundred` | js/gwas-storage.js:73-75 | while no more bytes than declared arrive, no value exceeds 100 |
| `GwasStorage.ProgressNotClamped` | js/gwas-storage.js:75 | values are not clamped: 2 bytes against a declared length of 1 report 200 |
| `GwasStorage.ProgressNegativeLength` | js/gwas-storage.js:63-75 | with a negative Content-Length the reported values never increase and are never positive |
| `GwasStorage.ProgressNegativeExample` | js/gwas-storage.js:63-75 | 1 byte against a declared length of -1 reports -100 |
| `GwasStorage.SetAt` | js/gwas-storage.js:82 | `Uint8Array.set` copies the chunk to the given offset and leaves every other element as it was |
| `GwasStorage.Reassemble` | js/gwas-storage.js:79-84 | the filled buffer is the chunks joined in receipt order, and its length is the byte count received |
| `GwasStorage.ParseBody` | js/gwas-storage.js:86-87 | a single chunk is decoded and parsed as it is; no chunks parse as the empty buffer |
| `GwasStorage.ParseBodyIgnoresChunking` | js/gwas-storage.js:79-87 | the parsed document depends on the bytes received, not on where the stream cut them into chunks |
| `GwasStorage.NullBodyStatus` | js/gwas-storage.js:64 | the null-body statuses 204 and 205 are ok statuses other than 200 |
| `GwasStorage.FetchWithProgress` | js/gwas-storage.js:55-91 | the request is conditional on the truthy validator. A 304 returns null without reading the body or reporting progress. Any other non-ok status throws with that status and reports no progress. A 204 or 205 throws `NullBody` and reports no progress. Otherwise progress follows `ProgressTrace`, and the result is the parsed joined body with the response ETag, or a parse error |
| `GwasStorage.GwasStore.constructor` | js/gwas-storage.js:18-30 | an opened database holds exactly the records it held before |
| `GwasStorage.GwasStore.Get` | js/gwas-storage.js:33-41 | a lookup yields the stored record, or nothing for an absent key |
| `GwasStorage.GwasStore.Put` | js/gwas-storage.js:44-52 | a write replaces the whole record at its key, reads back as written, and leaves every other key unchanged |
| `GwasStorage.LoadData` | js/gwas-storage.js:99-114 | an unknown target (`UnknownTarget`) or an inherited name (`DataError`) fails before any request with the store unchanged. A 304 returns the cached data, or fails if nothing is cached, and writes nothing. A failing status, a 204 or 205, or a parse error writes nothing. Success stores `{data, etag}` under the target's key and returns `data`. No other key ever changes |
| `UnicodeEscape.HexRun` | js/utils.js:2 | the scanned run consists of hex digits and is maximal |
| `UnicodeEscape.MatchAt` | js/utils.js:2 | a match lies within the string and consists of `<`, `U`, `+`, 4 to 6 hex digits and `>` |
| `UnicodeEscape.MatchAtIsPattern` | js/utils.js:2 | the scanner matches with k digits exactly when the pattern `<U\+([0-9A-Fa-f]{4,6})>` matches with k digits (both directions, every k) |
| `UnicodeEscape.ParseHex` | js/utils.js:3 | `parseInt(hex, 16)` of n digits is below 16^n |
| `UnicodeEscape.ParseHexOfHex` | js/utils.js:3 | `parseInt(_, 16)` recovers any number from its w-digit spelling, upper or lower case |
| `UnicodeEscape.FromCodePoint` | js/utils.js:4 | a code point below 0x10000 becomes that one unit; above, a high then a low surrogate |
| `UnicodeEscape.CodePointRoundTrip` | js/utils.js:4 | reading the produced units back gives the code point |
| `UnicodeEscape.ParseUnicodeString` | js/utils.js:1-6 | the decoded string is never longer than the input |
| `UnicodeEscape.PlainPrefixCopied` | js/utils.js:2 | text in front of which no match starts is copied unchanged, and decoding goes on after it as if it were not there |
| `UnicodeEscape.DigitsDecode` | js/utils.js:2-4 | the digits of an escape, in any case, give the character of their value, or a RangeError with that value beyond 0x10FFFF; the rest is decoded on its own |
| `UnicodeEscape.ParseHexCaseInsensitive` | js/utils.js:3 | `parseInt(_, 16)` gives the same value for two digit strings that agree up to case |
| `UnicodeEscape.EscapeDecodes` | js/utils.js:2-4 | an escape is replaced by the character of its value and the text after it is decoded independently; a value above 0x10FFFF throws a RangeError with that value |
| `UnicodeEscape.LoneEscapeDecodes` | js/utils.js:2-4 | an escape on its own decodes to exactly its character |
| `UnicodeEscape.EscapeThenPlainText` | js/utils.js:2-4 | an escape followed by text without `<` decodes to the character followed by that text |
| `UnicodeEscape.HexCaseInsensitive` | js/utils.js:2-4 | two escapes whose digits agree up to case, mixed case included, decode alike whatever follows |
| `UnicodeEscape.VerbatimWithoutEscapes` | js/utils.js:2 | a string in which no position matches comes back identical |
| `UnicodeEscape.VerbatimWithoutLessThan` | js/utils.js:2 | a string without `<` comes back identical |
| `UnicodeEscape.VerbatimWhenOnlyCandidateFails` | js/utils.js:2 | a string whose only `<` is at the front, where the pattern fails, comes back identical |
| `UnicodeEscape.LowerCaseEAcute` | js/utils.js:2-4 | `<U+00e9>` decodes to U+00E9 |
| `UnicodeEscape.UpperCaseEAcute` | js/utils.js:2-4 | `<U+00E9>` decodes to U+00E9 |
| `UnicodeEscape.DecodedOnce` | js/utils.js:2 | output is not rescanned: `<U+003C>U+0041>` decodes to `<U+0041>` |
| `UnicodeEscape.DecodedTwice` | js/utils.js:2-4 | decoding that output again gives `A`, so decoding is not idempotent |
| `UnicodeEscape.TextBeforeEscapeCopied` | js/utils.js:2-4 | `x<U+0041>` decodes to `xA` |
| `UnicodeEscape.BeyondUnicodeThrows` | js/utils.js:3-4 | `<U+110000>` throws a RangeError carrying 0x110000 |
| `UnicodeEscape.TooFewDigitsVerbatim` | js/utils.js:2 | `<U+123>` is copied unchanged |
| `UnicodeEscape.TooManyDigitsVerbatim` | js/utils.js:2 | `<U+1234567>` is copied unchanged |
| `UnicodeEscape.LowerCaseUVerbatim` | js/utils.js:2 | `<u+1234>` is copied unchanged |
| `UnicodeEscape.UnclosedVerbatim` | js/utils.js:2 | `<U+1234` is copied unchanged |

## Left out

- IndexedDB itself: `indexedDB.open`, the upgrade handler, transactions and
  request callbacks (js/gwas-storage.js:18-52) are browser APIs. The store is a
  map with get and put. Apart from the undefined key of an inherited target
  name, failures to open, read or write the database are not
  modelled.
- Network I/O, the `ReadableStream` reader and `async`/`await`. The response
  is a value computed from the request, and its body is the sequence of chunks
  the reader yields. Because `server` is total, three error paths drop out:
  a rejected `fetch` (a network or CORS failure, js/gwas-storage.js:57), a
  `reader.read()` that rejects partway through the stream (:70), and an
  `onProgress` callback that throws (:75). Each would propagate out of
  `loadData` before the write and leave the store unchanged.
- The `Json` datatype is a placeholder for the parsed document. Nothing
  inspects the document, and `JNumber` holds only integers, not the
  fractional or exponent numbers `JSON.parse` can return.
- `TextDecoder` and `JSON.parse` are opaque function parameters. JSON.parse
  throwing is `jsonParse` returning `None`.
- GwasStorage.Percent: the source computes `Math.floor((received / total) * 100)`
  in IEEE-754 doubles. The model uses exact integers, `received * 100 / total`.
  The two can differ by one near exact multiples (29 / 100 * 100 is
  28.999... in doubles).
- `parseInt` of Content-Length is taken as already done. It yields the integer
  its leading digits spell, with their sign. A missing or empty header and one
  that does not parse (NaN) are both `None`. A value of 0 is kept, and like NaN
  it turns progress off. A negative value is kept and reports progress.
- Concurrent `loadData` calls on the same key can race between the read and
  the write; the code has no coordination. Each call is modelled as running
  alone.
- js/include.js (DOM injection of fetched HTML) is not part of this model. It
  is UI code.
- The storage key and URL of each target are kept as data. What the URLs
  serve is not modelled.
