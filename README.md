# NumInfo lookup core in Dafny

NumInfo is a one-page PHP application. It takes a term, usually a phone number,
and looks it up in one of two ways: through a remote API, or in mock mode from
three built-in sample records. It shows the result as summary cards and raw
JSON, and it can offer the result as a CSV download. This project models the
data transforms of `index.php` over an abstract PHP value, and proves
properties of them:

- `is_assoc`, which tells a list from an associative array;
- `array_to_csv`, which flattens a result into rows, takes the first-seen union
  of their keys as the header, and writes one record per row the way PHP's
  `fputcsv` does with its default arguments;
- the summary block, which chooses the record to summarise and shows its
  non-empty whitelisted fields;
- `mock_lookup`;
- the filename sanitiser of the CSV download;
- the shaping of `call_api`'s answer into the result, status and error of a
  lookup, and the POST branch that decides between the download and the page.

Files and modules:

| file | module | contents |
|---|---|---|
| `php_values.dfy` | `PhpValues` | PHP values and ordered arrays, `empty()`, `range()`, `is_assoc`, integer-to-string conversion |
| `sequences.dfy` | `Sequences` | first-seen union of keys (`$keys[$k] = true`), first occurrences |
| `csv.dfy` | `Csv` | `fputcsv` with its defaults, and a reader for what it writes |
| `csv_export.dfy` | `CsvExport` | `array_to_csv`: rows, header keys, records, and the imperative loops that build them |
| `summary.dfy` | `Summary` | the summary record and its cards |
| `mock.dfy` | `Mock` | `mock_lookup` and what its record summarises to |
| `filename.dfy` | `Filename` | `preg_replace('/\W+/', '_', $term)` and the attachment name |
| `request.dfy` | `Request` | `call_api`'s result shaping, the lookup outcome and the POST branch |

Modelling choices:

- Values:
  - A PHP value is `Null`, `Bool`, `Int`, `Str` or `Arr`.
  - An array is a sequence of key/value entries in insertion order.
  - Keys are `IntKey` or `StrKey`.
- Foreign functions are parameters of the functions that use them:
  - `json_encode` is a function from values to strings;
  - `json_decode` is a function that returns `None` when `json_last_error` would report an error;
  - `crc32` is a function from strings to integers.
- `array_to_csv`:
  - It accumulates through loops, so the model is a method, `CsvExport.ArrayToCsv`.
  - Each of its loops is proved against a specification function.
  - The `php://memory` stream is the string the method appends to.
- The summary block loops over the whitelist and sets a flag. It is the
  method `Summary.Summarize`, proved against `Summary.ShownFields`.
- Strings are sequences of characters:
  - Every character that matters to `fputcsv` or to `\W` is ASCII.
  - A multi-byte character consists of bytes outside `[A-Za-z0-9_]`, and such bytes always belong to one non-word run.
  - So the character-level sanitiser gives the same result as the byte-level one.

Behaviour of `index.php` that the model keeps:

- A response body that is not JSON becomes `['raw' => body]`, under `data`.
- `array_to_csv` does not wrap a scalar element of a list. Its `foreach` over that element produces no keys and warns. A row whose value is a scalar is therefore outside the model (see `CsvExport.RowsAreArrays`).
- A falsy result shows "No data". The "No standard fields found" notice appears only for a truthy result with none of the whitelisted fields.

## Model

| member | source | states |
|---|---|---|
| `PhpValues.Range` | index.php:44 | `range(lo, hi)` counts from lo to hi by steps of one, up or down, and has one element more than the distance between them, so `range(0, -1)` is `[0, -1]` |
| `PhpValues.IsAssocIff` | index.php:44 | `is_assoc(v)` holds exactly when v is an array that is empty or whose keys are not 0..count-1 in order |
| `PhpValues.ListFirstElement` | index.php:128 | a non-associative array is non-empty and `$a[0]` is its first entry's value |
| `PhpValues.LookupIgnoresOrder` | index.php:132 | in arrays with distinct keys, reordering the entries changes no lookup |
| `PhpValues.IntToString` | index.php:48-49 | an int is written as decimal digits, with a leading '-' exactly when it is negative |
| `PhpValues.NatToStringValue` | index.php:48-49 | the digits of a non-negative int read back, in decimal, as that int |
| `PhpValues.IntToStringValue` | index.php:48-49 | the text of an int read back as a signed decimal is that int |
| `PhpValues.IntToStringInjective` | index.php:48-49 | two different ints are never written as the same text |
| `CsvExport.RowsShape` | index.php:46 | there is at least one row; an array that is empty or not keyed 0..n-1 is the single row of its entries; a non-empty array keyed 0..n-1 gives one row per element, holding that element's entries; a scalar gives the single row `{"value": json_encode(v)}`; the empty array is one empty row |
| `Sequences.FirstSeenSpec` | index.php:47 | the union of keys holds each key, nothing else, no key twice, in the order of first occurrence |
| `CsvExport.ColumnsSpec` | index.php:47-48 | the header holds every key of every row, only such keys, each exactly once, in first-seen order |
| `CsvExport.ColumnsStable` | index.php:47 | a further row never moves or removes a header key already found |
| `CsvExport.CollectKeys` | index.php:47 | the nested loops over rows and keys produce exactly the first-seen union of the keys |
| `CsvExport.BuildRow` | index.php:49 | the loop over `$keys` yields the row's value for each header key, in header order, with "" for a missing or null value |
| `CsvExport.WriteRecords` | index.php:48-49 | the output is the header record followed by one record per row, in row order |
| `CsvExport.ArrayToCsv` | index.php:45-51 | `array_to_csv` returns the CSV document of the header and data records of its rows |
| `CsvExport.CsvReadsBack` | index.php:48-49 | the output holds 1 + (number of rows) records; the header holds the key texts; every record has as many fields as the header; field i of a row's record is its value under header key i, or "" when that value is missing or null |
| `CsvExport.EmptyArrayCsv` | index.php:44-50 | the empty array gives an empty header line and one empty data line |
| `CsvExport.HeterogeneousListCsv` | index.php:45-51 | a list of `{name:A, mobile:1}` and `{name:B, circle:X}` gives `name,mobile,circle`, `A,1,` and `B,,X` |
| `Csv.Record` | index.php:48 | every record `fputcsv` writes ends in "\n" |
| `Csv.FieldShape` | index.php:48-49 | a field holding ',', '"', a space, a tab, CR or LF is enclosed in double quotes with each '"' doubled; any other field is written as it is |
| `Csv.ParseDocument` | index.php:48-49 | reading back what `fputcsv` wrote gives the records that were written, when no field holds '\' and no record is empty |
| `Csv.EscapeCharNotInverted` | index.php:48-49 | a field `\"` is written as `"\""`, which reads back as a different field: the escape character suppresses quote doubling |
| `Summary.Summarize` | index.php:126-139 | "No data" exactly for a falsy result; otherwise the cards of the summary record over the whitelist, with the fallback notice exactly when no card is shown |
| `Summary.SummaryFields` | index.php:129-138 | each card is a whitelisted field with the record's non-empty value for it; every whitelisted field with a non-empty value has a card; cards come in whitelist order |
| `Summary.WhitelistCards` | index.php:129-137 | the cards are those of name, fname, mobile, email, address, circle and id, in that order, each present only when its value is non-empty |
| `Summary.SummaryIgnoresKeyOrder` | index.php:128-137 | reordering the keys of a record does not change its cards |
| `Summary.ObjectIsItsOwnRecord` | index.php:128 | an array with a string key is summarised as it stands |
| `Summary.ListSummarisedByFirstElement` | index.php:128 | a list is summarised by its element at index 0 |
| `Summary.ScalarHasNoStandardFields` | index.php:128-139 | a scalar result, wrapped as `{"value": v}`, shows no card, so the fallback notice appears |
| `Mock.SampleIndex` | index.php:41 | the sample index `abs(crc32(term)) % 3` is below 3 |
| `Mock.MockLookup` | index.php:35-42 | the mock record is one of the three samples, with the sample keys in order and no key twice; its mobile is the term, and its name is the sample name at index `abs(crc32(term)) % 3` |
| `Mock.MockIsIndexedSample` | index.php:36-41 | the mock record is the sample at index `abs(crc32(term)) % 3`, with only its mobile entry set to the term |
| `Mock.MockDiffersOnlyInMobile` | index.php:36-41 | two terms in the same hash class get equal records except for the mobile entry, which holds each term |
| `Mock.SampleSummary` | index.php:36-39 | a sample shows its name, fname, email and address cards, plus the mobile card unless the mobile is "" or "0" |
| `Mock.MockSummary` | index.php:126-139 | the mock record is summarised as it stands, with the cards name, fname, [mobile], email and address in that order; the fallback notice never appears |
| `Filename.SkipNonWord` | index.php:70 | skipping a run of non-word characters leaves a suffix that is empty or starts with a word character |
| `Filename.Sanitise` | index.php:70 | the sanitised term holds only `[A-Za-z0-9_]` and is no longer than the term |
| `Filename.SanitiseKeepsWordStrings` | index.php:70 | a term made only of word characters is left unchanged |
| `Filename.SanitiseIdempotent` | index.php:70 | sanitising twice is sanitising once |
| `Filename.SanitiseKeepsAlnum` | index.php:70 | the letters and digits of the output are exactly those of the input, in order |
| `Filename.SanitiseKeepsWordChars` | index.php:70 | the word characters of the input are a subsequence of the output |
| `Filename.SkipWholeRun` | index.php:70 | the skip over a non-word run stops exactly at the first word character after it, or at the end |
| `Filename.SanitiseWordPrefix` | index.php:70 | a prefix of word characters is kept as it is, and the rest is sanitised on its own |
| `Filename.SanitiseLeadingRun` | index.php:70 | a maximal leading run of non-word characters becomes exactly one '_' |
| `Filename.SanitiseRun` | index.php:70 | word characters, then a maximal non-word run, then the rest: the run becomes exactly one '_' between the kept word characters and the sanitised rest |
| `Filename.SanitisePhoneNumber` | index.php:70 | `+91 98` becomes `_91_98` |
| `Filename.SanitiseDoubleSpace` | index.php:70 | a run of two spaces becomes one '_': `a  b` becomes `a_b` |
| `Filename.AttachmentNameIsSafe` | index.php:70 | the attachment name is `numinfo_` + word characters + `.csv`, so it holds no quote, CR, LF, '/' or '\' |
| `Request.CallApi` | index.php:29-32 | `call_api` returns an array with distinct keys; `status` is always the HTTP code; `error` holds "cURL error: " + the message exactly on a transport failure; `data` otherwise holds the decoded body, or `['raw' => body]` when the body does not decode |
| `Request.ApiOutcomeCases` | index.php:63-66 | the outcome of an API lookup from what curl returned: on a transport failure the result is `['error' => 'No data']` and the error is "cURL error: " + the message; a body decoded to null also gives `['error' => 'No data']`; a body decoded to another value is the result; an undecodable body gives `['raw' => body]`; no error is set when a body arrived; the status is the HTTP code |
| `Request.ApiResultTruthy` | index.php:64-68 | the API result is truthy exactly when the transport failed, the body does not decode, or it decodes to null (giving the truthy "No data" array) or to a truthy value |
| `Request.MockResultIsOneRow` | index.php:61 | the mock result is truthy and associative, so `array_to_csv` makes it one row |
| `Request.DownloadDecision` | index.php:59-72 | in mock mode a POST ends in a download exactly when one was asked for; through the API exactly when one was asked for and the body failed to arrive, does not decode, or decodes to null or a truthy value; the download is named after the sanitised term and holds `array_to_csv` of the mock record or the API result; otherwise the page shows status 200 and the mock record, or the API outcome |
| `Request.MockDownload` | index.php:60-71 | in mock mode a requested download is always served, with the CSV of the mock record |

## Left out

- The network transport of `call_api`: the URL, `curl_*`, timeouts and redirects. The model takes curl's result, with its message and HTTP code, as a `Request.Transport` value.
- `json_encode`, `json_decode` and `crc32` themselves: they are library calls and are parameters of the model. CRC-32 is not implemented.
- Floating-point numbers in decoded JSON, and PHP's conversion of a numeric string key to an integer key. The model's keys are taken as already normalised.
- `safe()` (`htmlspecialchars`), `ucfirst` on the card titles, and the HTML, CSS and JavaScript of the page: these are presentation and foreign library code.
- `getenv` for the API key and the warning banner: environment access.
- `header`, `echo` and `exit` of the download: response plumbing. `Request.HandlePost` returns the name and body of the download instead.
- `Request.HandlePost`: a GET request, which only renders the form, is not modelled. The `$_REQUEST` fields come in as a `Request.Form`.
- `CsvExport.ArrayToCsv` requires the elements of a list to be arrays. For a scalar element PHP warns and contributes no keys; the model does not follow it there.
- `CsvExport.CsvReadsBack` and `Csv.ParseDocument` require that no field holds '\' and that there is at least one column. The escape character breaks the round trip (`Csv.EscapeCharNotInverted`), and with no column every record is an empty line. The writer itself, `Csv.Field`, does model the escape character.
- `Csv.FieldShape` states the doubling of quotes only for fields without '\'. After a '\' the writer leaves a quote undoubled, and `Csv.EscapeBody` models that.
- `Mock.MockLookup`: `abs` of the most negative integer on a 32-bit build is not modelled; integers are unbounded.
