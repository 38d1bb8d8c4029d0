# gcsproxy request handling in Dafny

gcsproxy is a small HTTP gateway in front of Google Cloud Storage. For every
`GET`/`HEAD /{bucket}/{object}` it fetches the object's attributes, hides
objects matched by the `-block-if key:value` rule, copies the metadata keys
whitelisted by `-pass-through k1,k2,…` into `X-Goog-Meta-<k>` headers,
answers `304 Not Modified` to a matching `If-Modified-Since`, and otherwise
streams the object's bytes with its content headers. A wrapper records the
status for the access log.

This project models that per-request logic of `main.go` and proves what a
client can observe. Go and library behaviour the handler depends on is
written out in small modules:

- `Wrappers`: `Option` and `Result`.
- `GoStrings`:
  - `strings.Split` and `strings.Join` on a one-character separator;
  - `strings.Contains`;
  - `strconv.FormatInt` in base 10, with a decimal parser it is proved against.
- `GoTime`: a `time.Time` is an integer count of nanoseconds since Go's zero time.
  - `Truncate(time.Second)` is rounding down.
  - `http.ParseTime` is an opaque partial function; a failed parse yields the zero time.
- `Storage`: the object attributes, the opened reader, and the two kinds of error (`ErrObjectNotExist` and any other).
- `NetHttp`:
  - `http.Header` as a map from key to a list of values, with `Add`, `Set` and `Get`;
  - the request's header map, which may be nil;
  - the server's `ResponseWriter` as a class: the first `WriteHeader` wins, and `Write` sends 200 if nothing was sent yet.
- `Policy`: parsing the `-block-if` rule, the `isBlocked` decision, and the `-pass-through` key set.
- `Gateway`:
  - the handler's helpers and `wrapResponseWriter` (a class);
  - `writeMetadataHeaders` and `proxy` as methods on the writer;
  - `Respond`, the response `proxy` produces, as a function.

  The methods are proved to leave the writer exactly as `Respond` says.
- `GatewayProperties`: lemmas about `Respond`. They cover the status each outcome leads to, which headers each path adds, and the conditional-GET rule in whole seconds.

Three behaviours of the code are worth knowing; the model follows the code on each:

- With the default empty `-block-if`, the rule never parses, so every existing object is answered with a 500.
- A rule `key:` with an empty value blocks every object that lacks `key`.
- The default empty `-pass-through` whitelists the empty key `""`.

Two places where the code differs from a plain reading of its documentation; the model follows the code:

- An `If-Modified-Since` value that does not parse is not ignored. `http.ParseTime` returns the zero time with its error, and the comparison runs against that. The result is 304 exactly when the object was updated before the end of Go's first second (00:00:01 UTC, January 1, year 1). For real objects that is 200, as if the header were absent.
- A 304 response is not bare. The passed-through metadata headers are written before the conditional-GET check, so they appear on 304 responses too. The content headers do not.

## Model

| member | source | states |
|---|---|---|
| GoStrings.Split | main.go:169 | `strings.Split` with a one-character separator; its contract is stated by `SplitShape`, `JoinSplit` and `SplitJoin` |
| GoStrings.Join | main.go:169 | not called by the handler: the reference inverse of the `strings.Split` calls at main.go:169 and 192, against which `JoinSplit` and `SplitJoin` state what `Split` returns |
| GoStrings.SplitShape | main.go:169-170 | `strings.Split` gives one piece more than there are separators, and no piece holds the separator |
| GoStrings.JoinSplit | main.go:169 | joining the pieces of a split with the separator gives the original string back |
| GoStrings.SplitJoin | main.go:192 | splitting a join of separator-free pieces gives the pieces back |
| GoStrings.SplitNoSeparator | main.go:192 | a string without the separator splits into itself alone |
| GoStrings.Count | main.go:170 | the number of separators is at most the length, and is zero exactly when the separator does not occur |
| GoStrings.ContainsOccurs | main.go:201 | `strings.Contains` holds exactly when the substring occurs at some position |
| GoStrings.Contains | main.go:201 | `strings.Contains`; its contract is stated by `ContainsOccurs` |
| GoStrings.FormatInt | main.go:61 | `strconv.FormatInt(n, 10)`; its contract is stated by `FormatIntRoundTrip` |
| GoStrings.FormatIntRoundTrip | main.go:61 | `strconv.FormatInt(n, 10)` reads back as `n` under a decimal parser, for negative and non-negative `n` |
| GoStrings.ParseDigitsOfDigits | main.go:61 | the unsigned decimal rendering of a natural number reads back as that number |
| GoTime.TruncateToSecond | main.go:133 | `Truncate(time.Second)` gives a whole second, not after the time and less than a second before it |
| GoTime.ParseTimeOrZero | main.go:129 | `http.ParseTime` seen through its result, the zero time on failure; what the handler makes of it is stated by `NotModifiedRule` |
| GoTime.IsZero | main.go:66 | `value.IsZero()`: the time is Go's zero time; what `setTimeHeader` makes of it is stated by `TimeHeader` and `LastModifiedHeader` |
| GoTime.After | main.go:133 | `Truncate(time.Second).After(last)`: strictly later; its use is stated by `TruncatedNotAfter` and `NotModifiedRule` |
| Storage.ErrorText | main.go:35-37 | `err.Error()`, with the storage client's text for `ErrObjectNotExist`; that error responses carry it is stated by `ErrorResponses` |
| NetHttp.Add | main.go:55 | `Header.Add`; its contract is stated by `AddValues` |
| NetHttp.AddValues | main.go:55 | `Header.Add` appends one value to its key and leaves every other key as it was |
| NetHttp.Set | main.go:35 | `Header.Set` replaces the key's values by the one value and leaves every other key as it was |
| NetHttp.Get | main.go:200 | `Header.Get` is the first value of the key, or "" when there is none |
| NetHttp.RequestGet | main.go:200 | `r.Header.Get`; its contract is stated by `RequestGetFirst` |
| NetHttp.RequestGetFirst | main.go:200 | `r.Header.Get` is the first value of the key, or "" when there is none or the request has no header map |
| NetHttp.RequestValues | main.go:47 | `r.Header[key]` (here and at main.go:128) on a header map that may be nil, a nil map giving no values; its use is stated by `Header` and `NoConditionalWithoutHeader` |
| NetHttp.AddAllValues | main.go:143-149 | adding header lines one after another appends to each key exactly the values the lines give it, in order |
| NetHttp.AddAllAppend | main.go:143-149 | adding two lists of lines in turn is adding their concatenation |
| NetHttp.ValuesInAppend | main.go:143-149 | the values a concatenation of lines gives a key are those of the first list, then those of the second |
| NetHttp.ResponseWriter.WriteHeader | main.go:77 | the server's writer sends the first status it is given and ignores later ones; headers and body unchanged |
| NetHttp.ResponseWriter.Write | main.go:150 | writing the body sends 200 first if no status was sent, and appends the bytes |
| Policy.ParseBlockIfMeta | main.go:166-175 | the rule parses exactly when it holds one ':'; then `key + ":" + value` is the rule and neither part holds ':'; otherwise the block-if error |
| Policy.ParseBlockIfMetaOfRule | main.go:166-175 | every `key:value` with ':'-free parts parses back to that key and value |
| Policy.DefaultBlockIfIsError | main.go:23 | the default empty `-block-if` does not parse |
| Policy.Lookup | main.go:159 | `attr.Metadata[key]`, a missing key reading as ""; its use is stated by `IsBlocked` and `EmptyValueBlocksObjectsWithoutKey` |
| Policy.IsBlocked | main.go:153-160 | an error exactly when the rule does not parse (the same error); else blocked exactly when the metadata, with a missing key read as "", holds the rule's value |
| Policy.IsBlockedByRule | main.go:159 | a well-formed rule `key:value` blocks exactly the objects whose metadata reads `value` at `key` |
| Policy.EmptyValueBlocksObjectsWithoutKey | main.go:159 | a rule `key:` blocks every object that lacks `key` |
| Policy.PassthroughKeys | main.go:192-195 | no whitelisted key holds a comma, and a flag without a comma whitelists exactly itself |
| Policy.ParsePassthroughMeta | main.go:188-197 | the loop builds exactly the set of the comma-separated pieces of the flag |
| Policy.PassthroughKeysOfList | main.go:192-195 | a comma-joined list of comma-free keys whitelists exactly those keys, duplicates collapsed |
| Policy.DefaultPassthroughIsEmptyKey | main.go:24 | the default empty `-pass-through` whitelists only the empty key |
| Gateway.WrapResponseWriter.constructor | main.go:84-87 | the wrapper starts over the server's writer with status 200 |
| Gateway.WrapResponseWriter.WriteHeader | main.go:76-79 | passes the status to the server's writer and records it as the wrapper's status |
| Gateway.StatusFor | main.go:33-38 | 404 exactly for `ErrObjectNotExist`, 500 exactly for any other error |
| Gateway.ErrorHeader | main.go:35-37 | the two `Set` calls of `http.Error`; what an error response carries is stated by `HttpError` and `ErrorResponses` |
| Gateway.HttpError | main.go:35-37 | `http.Error` sets the plain-text and nosniff headers, sends the status through the wrapper, and writes the text and a newline |
| Gateway.HandleError | main.go:32-41 | a nil error changes nothing; any other error is answered with its status, the error headers and its text |
| Gateway.ErrorResponse | main.go:32-41 | `handleError` as a value: the error's status, the two error headers and its text and a newline; stated by `ErrorResponses` |
| Gateway.Header | main.go:43-51 | the first value and true exactly when the key has a value, else "" and false, also when the request has no header map |
| Gateway.HeaderAgreesWithGet | main.go:43-51 | `header` yields the same string as `Header.Get` |
| Gateway.StrHeader | main.go:53-57 | `setStrHeader` adds one line, exactly when the value is non-empty, and that line is the key and value |
| Gateway.IntHeader | main.go:59-63 | `setIntHeader` adds one line, exactly when the value is positive, whose value reads back as the number |
| Gateway.TimeHeader | main.go:65-69 | `setTimeHeader` adds one line, exactly when the time is not the zero time, holding the formatted time |
| Gateway.SetStrHeader | main.go:53-57 | the writer's headers gain exactly the line `StrHeader` gives; status and body unchanged |
| Gateway.SetIntHeader | main.go:59-63 | the writer's headers gain exactly the line `IntHeader` gives; status and body unchanged |
| Gateway.SetTimeHeader | main.go:65-69 | the writer's headers gain exactly the line `TimeHeader` gives; status and body unchanged |
| Gateway.MetaHeaderName | main.go:180-183 | the header name starts with `X-Goog-Meta-` and the metadata key can be read back after it |
| Gateway.MetaHeaderNameOf | main.go:180-183 | every name with the prefix is the header name of the key that follows the prefix |
| Gateway.Exposed | main.go:182-183 | the whitelisted metadata entries with a non-empty value (the test of `setStrHeader` at main.go:54); stated by `WithMetadataHeadersValues` and `ExposedAmongAll` |
| Gateway.WithMetadataHeaders | main.go:181-185 | the headers after the loop: one metadata header value per exposed entry; stated by `WithMetadataHeadersValues` |
| Gateway.WithMetadataHeadersValues | main.go:181-185 | each header gains exactly the value its exposed metadata entry contributes, and nothing else changes |
| Gateway.MetadataHeaderValues | main.go:181-185 | `X-Goog-Meta-<k>` gains `v` exactly when `(k, v)` is exposed |
| Gateway.NonMetadataHeaderUnchanged | main.go:181-185 | header names outside the metadata prefix are untouched by the metadata headers |
| Gateway.WithMetadataHeadersStep | main.go:183 | exposing one more entry is one more `Header.Add` |
| Gateway.ExposedAmongStep | main.go:181-185 | visiting one more metadata key exposes it exactly when it is whitelisted with a non-empty value |
| Gateway.ExposedAmongAll | main.go:181-185 | after visiting every metadata key, the exposed entries are the whitelisted non-empty ones |
| Gateway.MetadataLoopStep | main.go:181-185 | one turn of the loop, for the key the map yields, extends the headers to the keys visited so far |
| Gateway.WriteMetadataHeaders | main.go:177-186 | in any iteration order, the headers gain one `X-Goog-Meta-<k>: v` per whitelisted non-empty entry and nothing else; status and body unchanged |
| Gateway.ClientAcceptsGzip | main.go:199-202 | `clientAcceptsGzip`; its contract is stated by `ClientAcceptsGzipIff` |
| Gateway.ClientAcceptsGzipIff | main.go:199-202 | the client accepts gzip exactly when `gzip` occurs anywhere in its `Accept-Encoding` value |
| Gateway.NotModified | main.go:128-133 | the conditional-GET test of `proxy`; its contract is stated by `NotModifiedRule` and `NoConditionalWithoutHeader` |
| Gateway.Respond | main.go:105-151 | every response is a 200, 304, 404 or 500 |
| Gateway.RespondOnPath | main.go:105-151 | the response on each path: the attribute error, the rule's parse error, a bare 404 when blocked, the metadata headers and a 304, the reader's error, or the content headers and bytes |
| Gateway.ContentHeaders | main.go:143-149 | the lines the seven setters add; stated header by header by `LastModifiedHeader` … `ContentLengthHeader` and `ContentHeadersOtherName` |
| Gateway.SetContentHeaders | main.go:143-149 | the seven setters add exactly the content header lines, in order; status and body unchanged |
| Gateway.Proxy | main.go:105-151 | the writer ends with the status, headers and body `Respond` gives; the wrapper's status is that status, or 200 when the object was served |
| Gateway.Serve | main.go:81-103 | the status the log line reports is the one sent to the client, who receives the headers and body `Respond` gives; the address is `X-Forwarded-For` when present, else the remote address |
| GatewayProperties.RespondStatus | main.go:105-151 | 200 iff every stage passes; 304 iff an unblocked object is not modified; 404 iff the object is missing at either call or is blocked; 500 iff any other error |
| GatewayProperties.BlockedObjectRevealsNothing | main.go:119-125 | a blocked object gets a 404 with no body and no header beyond those the writer had |
| GatewayProperties.ErrorResponses | main.go:110-113 | every error response is plain text with nosniff, and its body is the text of the error that stopped the request |
| GatewayProperties.DefaultBlockIfRejectsEveryObject | main.go:114-118 | with the default `-block-if`, whatever `-pass-through` says, every existing object is answered with a 500 and the block-rule error |
| GatewayProperties.BlockedTrueExample | main.go:153-160 | the rule `Blocked:true` hides an object whose `Blocked` metadata is `true` |
| GatewayProperties.NotBlockedExample | main.go:153-160 | the rule `Blocked:true` lets through an object whose `Blocked` metadata is anything else |
| GatewayProperties.MetadataNamesAreDistinct | main.go:180 | a metadata header name is never a content header or an error header name |
| GatewayProperties.MetadataHeaderOnEveryPath | main.go:126 | on every path, `X-Goog-Meta-<k>` gains the metadata value exactly when the metadata headers were written and `k` is whitelisted with a non-empty value; 304 responses included |
| GatewayProperties.OtherHeadersUntouched | main.go:105-151 | every header that is not a metadata, content or error header comes out as the writer had it |
| GatewayProperties.NotModifiedNoContentHeaders | main.go:133-136 | a 304 carries none of the `Last-Modified` and `Content-*` headers: each comes out as the writer had it |
| GatewayProperties.StrHeaderValues | main.go:53-57 | the line `setStrHeader` adds gives a header name the value exactly when the name is its key and the value is non-empty |
| GatewayProperties.IntHeaderValues | main.go:59-63 | the line `setIntHeader` adds gives a header name the decimal number exactly when the name is its key and the number is positive |
| GatewayProperties.TimeHeaderValues | main.go:65-69 | the line `setTimeHeader` adds gives a header name the formatted time exactly when the name is its key and the time is not zero |
| GatewayProperties.ContentHeadersAt | main.go:143-149 | the values the content header lines give a key are those of the seven setters, in order |
| GatewayProperties.LastModifiedHeader | main.go:143 | `Last-Modified` carries the formatted update time, unless that is the zero time |
| GatewayProperties.ContentTypeHeader | main.go:144 | `Content-Type` carries the object's content type, unless it is empty |
| GatewayProperties.ContentLanguageHeader | main.go:145 | `Content-Language` carries the object's content language, unless it is empty |
| GatewayProperties.CacheControlHeader | main.go:146 | `Cache-Control` carries the object's cache control, unless it is empty |
| GatewayProperties.ContentEncodingHeader | main.go:147 | `Content-Encoding` carries the encoding the reader reports, unless it is empty |
| GatewayProperties.ContentDispositionHeader | main.go:148 | `Content-Disposition` carries the object's content disposition, unless it is empty |
| GatewayProperties.ContentLengthHeader | main.go:149 | `Content-Length` carries the reader's size in decimal, when it is positive |
| GatewayProperties.ContentHeadersOtherName | main.go:143-149 | the content header lines give no value to any other name |
| GatewayProperties.ServedResponse | main.go:138-150 | a 200 carries the reader's bytes, and each non-metadata header is what the writer had plus the content lines' values |
| GatewayProperties.NoConditionalWithoutHeader | main.go:128 | without `If-Modified-Since` there is never a 304 |
| GatewayProperties.TruncatedNotAfter | main.go:133 | the update time cut to seconds is not after `t` exactly when the update is before the end of `t`'s second |
| GatewayProperties.NotModifiedRule | main.go:128-136 | 304 iff the update is before the end of the parsed time's second; an unparsable value compares against the zero time |
| GatewayProperties.GzipSubstringExample | main.go:199-202 | `x-gzip, deflate` counts as accepting gzip, because the test is a substring test |
| GatewayProperties.NoHeaderNoGzip | main.go:199-202 | a request with no header map does not accept gzip |

## Left out

- Process startup is not modelled: `main`, flag parsing and storage-client creation. The flags are the `Flags` parameter of each request.
- Routing by gorilla/mux and the bucket-name pattern are not modelled. The object a request names is given as the `Object` parameter.
- The storage calls `ReadCompressed`, `Attrs` and `NewReader` are modelled only by their results. The `Object` fields hold those results, and the gzip flag selects the reader.
- The streaming of `io.Copy` is modelled as one `Write` of the whole content. Failures and client disconnects in mid-copy are not modelled.
- The access log is not modelled: `verbose`, `time.Now` and the elapsed time. `Serve` yields the address and status the log line would report.
- Date parsing and formatting (`http.ParseTime`, `UTC().Format(http.TimeFormat)`) are opaque function parameters.
- Header-key canonicalization by `Header.Add` is not modelled. Keys are taken as already canonical, which holds for every key the handler uses, but not for arbitrary metadata keys.
- Headers the server adds on its own (such as `Date` and the implicit `Content-Length`) are not modelled, and neither is dropping the body of `HEAD` responses.
- HttpError: models `http.Error` as setting `Content-Type` and `X-Content-Type-Options`. It leaves out the header deletions that recent Go versions make.
- ParseBlockIfMeta: the error text is only the fixed prefix `unexpected block-if argument: `. The source appends `%v` of the flag pointer, which prints an address, not the rule. That address is not modelled.
- `Content-Length` is an `int64` in the source. The model uses unbounded integers, since the size a reader reports always fits.
