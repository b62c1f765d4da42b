# OAuth 1.0a signing and chunked media upload, modelled in Dafny

This project models the core of a set of scripts that post media to Twitter's
upload endpoint (`https://upload.twitter.com/1.1/media/upload.json`). Every
request carries an OAuth 1.0a `Authorization` header (RFC 5849). The scripts
hold seven copies of the signer, in TypeScript and in Python. The project
models each copy as it is written.

A video is uploaded in three steps:

- INIT, which returns a media id;
- one APPEND per 5 MiB segment;
- FINALIZE.

The script then polls STATUS until processing ends. An image goes up in a
single POST.

Modules, one per file:

- `Unicode` (`unicode.dfy`): UTF-8 and UTF-16 encoding of strings, with their
  round trips.
- `Text` (`text.dfy`): joining, ASCII upper-casing, and decimal rendering of
  natural numbers.
- `Collation` (`collation.dfy`): the two orders in which the copies sort
  names. JavaScript's `.sort()` compares UTF-16 code units; Python's `sorted`
  compares code points.
- `Params` (`params.dfy`): parameter dictionaries. A dictionary is an
  insertion-ordered sequence of pairs. The module defines `{...a, ...b}` and
  `d[k] = v`, and sorting by name.
- `PercentEncoding` (`percent.dfy`): the five `percentEncode` copies, each
  proved equal to the encoding of section 3.6 of RFC 5849. The module also
  proves that encoding round-trips.
- `Nonce` (`nonce.dfy`): the alphanumeric nonce and the hex nonce.
- `OAuth1` (`oauth.dfy`): the parameter string, base string, signing key and
  header. There are two signers:
  - `SignSorted` models `src/outh.ts` and `src/testoAuth.ts`, which send the
    token only when it is given and sort the header.
  - `SignInOrder` models the other copies, which always send the token and
    keep the header in insertion order.
- `Chunking` (`chunking.dfy`): how a payload is cut into segments.
- `MediaUpload` (`upload.dfy`): the INIT, APPEND and FINALIZE requests, with
  the status gate of each step, and the image upload and the type dispatch.
- `StatusPoll` (`poll.dfy`): the STATUS polling loops.

Some inputs come from outside the code and are parameters of the model:

- HMAC-SHA1 with its base64 rendering is a function parameter, `Hmac`.
- Each request's nonce and timestamp are a `Stamp` parameter.
- HTTP replies are parameters. The uploads take `reply: nat -> Response`,
  which is the reply to the k-th request. The polls take a finite scripted
  sequence of STATUS replies.

When the script runs out while the code would still query, a poll ends
`StillPolling`.

The video uploads (`UploadVideoJs`, `UploadVideoPy`) and the polls
(`CheckMediaStatusJs`, `CheckMediaStatusPy`) are loops in the source. The
model writes them as methods with `while` loops. Each method is proved equal
to a recursive specification function, and the lemmas are about those
functions.

Some behaviours of the code, which the model keeps as written:

- A caller parameter named like an `oauth_` one is not rejected. In
  `{...params, ...oauthParams}` the protocol value wins (`Params.Spread`).
- Parameter names are sorted raw and encoded afterwards (see "## Findings").
- No copy validates its inputs, and no poll can be cancelled.
- The TypeScript poll does not stop on state `failed` (see "## Findings").
- A poll sends one STATUS query per reply it reads. For the replies
  `[in_progress(0), in_progress(0), succeeded]` both polls send three queries
  and wait twice (`TwoInProgressThenSucceeded`).
- A negative `check_after_secs` makes Python's `time.sleep` raise
  `ValueError`, which ends `check_media_status` with an exception
  (`SleepRejected`). The TypeScript code hands the negative delay to
  `setTimeout`, which the model records as given.

## Model

| member | source | states |
|---|---|---|
| Unicode.Utf8RoundTrip | src/utils.ts:27 | decoding the UTF-8 bytes that `encodeURIComponent` escapes gives the string back |
| Unicode.Utf16RoundTrip | src/outh.ts:27-28 | the UTF-16 code units JavaScript compares when sorting decode back to the name, so the order compares names faithfully |
| Unicode.CodePointsInjective | src/workatofinal.py:22 | distinct names have distinct code-point sequences, the key Python's `sorted` compares |
| Text.AsciiUpperIdempotent | src/workatofinal.py:23 | upper-casing the method twice is upper-casing it once |
| Text.Decimal | src/finaltest.ts:134 | `total_bytes` / `segment_index` are non-empty digit strings without a leading zero except for 0 |
| Text.DecimalRoundTrip | src/workatofinal.py:96 | reading `str(i // chunk_size)` back gives the segment number |
| Text.DecimalInjective | src/finaltest.ts:158 | two segment numbers get the same `segment_index` text only if they are equal |
| Text.JoinInjective | src/outh.ts:27-30 | joining separator-free parts with `&` can be undone: equal joins have equal parts |
| Collation.KeyLessTotal | src/outh.ts:27-28 | the name order is total, so `.sort()` on distinct names has one result |
| Collation.KeyLessTransitive | src/workatofinal.py:22 | the name order is transitive |
| Collation.OrdersAgreeInBmp | src/workatofinal.py:22 | inside the Basic Multilingual Plane, UTF-16 code-unit order and code-point order coincide |
| Collation.OrdersDisagreeOutsideBmp | src/finaltest.ts:39-40 | outside it they differ: U+FF61 and U+1F600 sort differently in the two languages |
| Params.ToMapAt | src/outh.ts:25 | in a dictionary with distinct names, each name maps to the value stored with it |
| Params.Put | src/outh.ts:37 | `d[k] = v` keeps an existing name in place, appends a new one, and updates the map at `k` |
| Params.Spread | src/outh.ts:25 | `{...params, ...oauthParams}` has distinct names, and its map is the caller's map overridden by the protocol parameters |
| Params.SortByKey | src/outh.ts:27-28 | sorting keeps exactly the entries, sorted strictly by name |
| Params.SortByKeyCanonical | src/workatofinal.py:22 | two dictionaries sort to the same sequence exactly when they have the same map |
| PercentEncoding.UtilsPercentEncodeIsEncode | src/utils.ts:26-33 | `encodeURIComponent` followed by the five replacements equals the RFC 5849 encoding on every string |
| PercentEncoding.RegexPercentEncodeIsEncode | src/finaltest.ts:20-22 | the regex-callback copies (finaltest, authtest, testoAuth, mediaTweet) equal the RFC 5849 encoding |
| PercentEncoding.PyPercentEncodeIsEncode | src/workatofinal.py:12-13 | `quote(s, safe='~')` equals the RFC 5849 encoding |
| PercentEncoding.UnreservedUnchanged | src/utils.ts:26-33 | unreserved characters pass through the encoding unchanged |
| PercentEncoding.SubDelimsEscaped | src/utils.ts:28-32 | `!`, `'`, `*`, `(` and `)` are escaped as `%21`, `%27`, `%2A`, `%28` and `%29` |
| PercentEncoding.EncodeLength | src/utils.ts:26-33 | the output is at least as long as the input, and equally long only when every character is unreserved |
| PercentEncoding.EncodeFixedPointIff | src/utils.ts:26-33 | a string is unchanged by the encoding if and only if all its characters are unreserved |
| PercentEncoding.EncodeOutput | src/outh.ts:29 | every output consists of unreserved characters and `%HH` triples, so it holds no `&`, `=`, `"` or `,` |
| PercentEncoding.EncodeAppend | src/utils.ts:26-33 | the encoding of the empty string is empty, and the encoding of a concatenation is the concatenation of the encodings |
| PercentEncoding.EncodeRoundTrip | src/utils.ts:26-33 | percent-decoding and then UTF-8-decoding an encoded string gives the string back |
| PercentEncoding.EncodeInjective | src/workatofinal.py:12-13 | distinct strings never encode alike |
| Nonce.FilterAlnum | src/utils.ts:9-11 | the filtered nonce has only letters and digits, keeps every letter and digit of the input with its multiplicity, and drops everything else |
| Nonce.FilterAlnumIdempotent | src/utils.ts:10 | filtering an already filtered nonce changes nothing |
| Nonce.FilteredNonceUnescaped | src/utils.ts:10 | the filtered nonce is its own percent-encoding |
| Nonce.HexEncodeShape | src/testoAuth.ts:27-29 | the hex nonce has two lower-case hex digits per byte, 64 for 32 bytes, and each byte can be read back from them |
| Nonce.HexEncodeInjective | src/testoAuth.ts:28 | distinct random bytes give distinct hex nonces |
| OAuth1.OptionalTokenParams | src/outh.ts:13-23 | the protocol parameters have distinct names and no signature; `oauth_token` is present if and only if a token is given |
| OAuth1.ProtocolParams | src/finaltest.ts:60-67 | the protocol parameters of the always-token copies have distinct names, in the insertion order of the source |
| OAuth1.SignSorted | src/outh.ts:4-45 | the signed set is the caller's parameters overridden by the protocol ones; the signature is the HMAC under `enc(cs)&enc(ts)` of the base string over that set; the header entries are the protocol parameters plus the signature, sorted; the returned header is `OAuth ` followed by those entries as `k="v"` joined by `, ` |
| OAuth1.SignInOrder | src/finaltest.ts:51-75 | as above with `oauth_token` always present and the header entries in insertion order, the signature last; the returned header is `OAuth ` and those entries as `k="v"` joined by `, ` (also src/workatofinal.py:27-38, src/workato.py:25-38, src/authtest.ts:42-66, src/mediaTweet.ts:39-63) |
| OAuth1.ParamStringCanonical | src/outh.ts:27-30 | two parameter sets give the same parameter string if and only if they have the same names and values, whatever their insertion order |
| OAuth1.BaseStringUnambiguous | src/outh.ts:32 | the base string determines the method text, the URL and the parameter string |
| OAuth1.BaseStringDeterminesParams | src/finaltest.ts:43 | the base string determines the signed parameter set: a change to any name or value changes what is signed |
| OAuth1.MethodCaseMatters | src/workato.py:21 | the verbatim method of workato.py gives the same base string as the upper-cased one if and only if the method is already upper-case |
| OAuth1.SigningKeyInjective | src/finaltest.ts:44 | the signing key determines both secrets |
| OAuth1.HeaderValueInjective | src/outh.ts:39-42 | the header determines its entries, names, values and order |
| OAuth1.SignSortedIgnoresOrder | src/outh.ts:25-30 | the header of outh.ts depends on the caller's parameters only through their names and values |
| OAuth1.SignInOrderIgnoresOrder | src/workatofinal.py:35-36 | likewise for the insertion-order copies |
| OAuth1.ParamStringOrdersAgree | src/workatofinal.py:22 | for names in the Basic Multilingual Plane, the JavaScript and the Python sorts give the same parameter string |
| OAuth1.JsAndPyCopiesAgree | src/workatofinal.py:27-38 | the TypeScript copies and workatofinal.py sign such a request identically |
| OAuth1.VerbatimCopyAgreesOnUpperMethod | src/workato.py:19-38 | workato.py signs like workatofinal.py when the method is upper-case |
| OAuth1.SortedHeaderOrder | src/outh.ts:39-42 | the sorted header lists consumer key, nonce, signature, signature method, timestamp, then token when given, then version |
| OAuth1.RawSortDiffersFromRfc | src/outh.ts:27-30 | with names `aZ` and `a[`, sorting raw names gives `aZ=1&a%5B=2` where RFC 5849 gives `a%5B=2&aZ=1` |
| OAuth1.RfcParamStringCanonical | src/outh.ts:27-30 | the corrected parameter string (encode, then sort, then join) is also canonical: equal exactly when the maps are equal |
| OAuth1.RfcAgreesOnUnreservedNames | src/workatofinal.py:22 | when every name is unreserved, as every name the code signs is, the code's parameter string is the RFC 5849 one |
| Chunking.SegmentCountBounds | src/authtest.ts:99 | `Math.ceil(n / cs)` counts the segments: segment `k` exists if and only if `k * cs` is inside the payload |
| Chunking.SegmentShape | src/authtest.ts:101-102 | every segment is non-empty and at most 5 MiB, and only the last one may be shorter |
| Chunking.SegmentsFlatten | src/finaltest.ts:152-153 | the segments joined in order give the payload back: nothing lost, repeated or reordered |
| Chunking.SegmentCountEdges | src/workatofinal.py:89-91 | an empty payload has no segment; up to 5 MiB gives one; 12 MiB gives three, the last of 2 MiB |
| Chunking.PythonOffsets | src/workatofinal.py:90-96 | `range(0, n, cs)` yields one offset per segment, offset `k` is `k*cs`, `i // cs` is `k`, and `data[i:i+cs]` is segment `k` |
| MediaUpload.Authorization | src/workatofinal.py:67-122 | the header of each upload request is `OAuth ` and the protocol parameters with the request's nonce and timestamp, then the HMAC of the base string over the request's own parameters, the file part unsigned (also src/finaltest.ts:140-179) |
| MediaUpload.AuthorizationDeterminesStamp | src/workatofinal.py:67-122 | two upload requests under the same credentials with equal headers were given the same nonce and timestamp |
| OAuth1.InsertionHeaderDeterminesStamp | src/workatofinal.py:35-38 | a header of the always-token copies determines its nonce, its timestamp and its signature |
| MediaUpload.JsVideoPlanFields | src/finaltest.ts:131-175 | INIT announces the media type and decoded size; APPEND `k` carries `segment_index` `k` and the media id; FINALIZE carries the media id |
| MediaUpload.PyVideoPlanFields | src/workatofinal.py:73-113 | the same for the Python upload, whose APPEND parameters do not include `media_data` |
| MediaUpload.PyAppendUnsigned | src/workatofinal.py:93-104 | the Python APPEND signs no `media_data`: the chunk goes as a file part |
| MediaUpload.JsVideoPlanCarriesPayload | src/finaltest.ts:152-160 | the `media_data` values of the APPEND requests, joined in order, are the base64 text |
| MediaUpload.PyVideoPlanCarriesPayload | src/workatofinal.py:90-100 | the file parts of the APPEND requests, joined in order, are the decoded bytes |
| MediaUpload.SegmentIndicesDistinct | src/finaltest.ts:158 | no two APPEND requests carry the same `segment_index` |
| MediaUpload.PlanSignable | src/finaltest.ts:140-179 | every planned request names each parameter once, so it can be signed |
| MediaUpload.UploadVideoJs | src/finaltest.ts:121-194 | the requests sent and the result equal `JsVideoRun`: INIT, then one APPEND per segment, then FINALIZE, stopping at the first non-2xx reply (also src/authtest.ts:68-150) |
| MediaUpload.UploadVideoPy | src/workatofinal.py:67-122 | the requests sent and the result equal `PyVideoRun`: INIT must be 202 with a media id, each APPEND 204, FINALIZE 200 |
| MediaUpload.CutIsPrefix | src/workatofinal.py:83-120 | a gated run sends its plan up to and including the first failing reply, or all of it |
| MediaUpload.JsVideoRunIsCut | src/finaltest.ts:144-185 | the TypeScript upload is its fixed plan cut at the first non-2xx reply |
| MediaUpload.PyVideoRunIsCut | src/workatofinal.py:83-120 | the Python upload is its plan cut at the first reply off its code, or INIT alone when the id is missing |
| MediaUpload.CutOutcome | src/workatofinal.py:84-120 | a gated run sends a non-empty prefix of its plan; it succeeds if and only if every reply passes, and then it has sent the whole plan; otherwise it names the step whose reply failed, and every earlier reply passed |
| MediaUpload.JsVideoRunOutcome | src/authtest.ts:92-149 | a TypeScript video upload succeeds if and only if every reply is 2xx, returning the INIT media id; otherwise it stops at the first non-2xx step and reports it |
| MediaUpload.PyVideoRunOutcome | src/workatofinal.py:83-122 | a Python video upload succeeds if and only if INIT is 202 with an id, every APPEND 204 and FINALIZE 200; a 202 without an id fails after INIT alone |
| MediaUpload.ExactCodesStricter | src/workatofinal.py:84-120 | every reply the Python gates accept, axios accepts too, but 200 after INIT, 200 after APPEND and 201 after FINALIZE pass only axios |
| MediaUpload.JsImageUpload | src/finaltest.ts:95-119 | the image POST signs `media_data`; it succeeds if and only if the status is 200; another 2xx is an unexpected status, anything else a rejection (also src/mediaTweet.ts:65-90) |
| MediaUpload.PyImageUpload | src/workatofinal.py:48-64 | a status in 400..599 is a rejection; otherwise it succeeds if and only if the body has a media id |
| MediaUpload.ImageGatesDiffer | src/workatofinal.py:57-64 | the Python image upload succeeds where the TypeScript one fails exactly when the reply carries a media id and a status outside 400..599 other than 200, a 304 for one; the TypeScript one succeeds where Python fails exactly on a 200 without an id (also src/finaltest.ts:108-118) |
| MediaUpload.UploadMediaJs | src/finaltest.ts:78-93 | "video" runs the chunked upload as "video/mp4", "image" the single POST, and any other type fails before any request |
| MediaUpload.UploadMediaPy | src/workatofinal.py:40-46 | the same dispatch in Python; the video upload gets the decoded bytes |
| StatusPoll.ScanOutcome | src/workatofinal.py:134-148 | a poll either goes on after every scripted reply, waiting after each, or stops at the first stopping reply, ending as that reply dictates, after waiting once for each reply before it |
| StatusPoll.JsPollIsScan | src/finaltest.ts:209-216 | the TypeScript loop is the common scan with its stop rule and wait rule |
| StatusPoll.JsPollOutcome | src/finaltest.ts:209-216 | the TypeScript poll stops if and only if a reply is non-2xx (throws) or has no `processing_info` or state `succeeded` (returns); it waits only after `in_progress` replies; it never reports a failed processing (also src/authtest.ts:167-175) |
| StatusPoll.CheckMediaStatusJs | src/finaltest.ts:196-217 | the queries, waits and ending equal `JsPoll`; one signed STATUS GET over `command` and `media_id` serves every query |
| StatusPoll.PyPollIsScan | src/workatofinal.py:136-148 | the Python loop is the common scan with its stop rule and wait rule |
| StatusPoll.PyPollOutcome | src/workatofinal.py:136-148 | the Python poll stops if and only if a reply is not 200 (raises), or has state `succeeded` (returns) or `failed` (raises), or asks for a negative delay (`time.sleep` raises); it sleeps exactly once after each reply before that one, never for a negative time |
| StatusPoll.CheckMediaStatusPy | src/workatofinal.py:124-148 | the queries, sleeps and ending equal `PyPoll`; on `succeeded` the body of the last reply is returned; the one request is the signed STATUS GET |
| StatusPoll.TwoInProgressThenSucceeded | src/finaltest.ts:210-215 | two `in_progress` replies with `check_after_secs` 0, then `succeeded`: TypeScript waits 5000 ms twice, a zero delay falling back to five seconds; Python sleeps 0 s twice (src/workatofinal.py:148) |
| StatusPoll.MissingInfoDiverges | src/workatofinal.py:141-148 | a 200 reply without `processing_info` ends the TypeScript poll but makes the Python poll sleep 5 s and query again |
| StatusPoll.JsPollSpinsOnFailed | src/finaltest.ts:209-216 | against replies that all report `failed`, the TypeScript loop queries again without waiting until the script runs out |
| StatusPoll.JsPollFixedOutcome | src/finaltest.ts:209-216 | the corrected loop stops, with `ProcessingFailed`, at the first 2xx reply reporting `failed`, and never queries past one |
| StatusPoll.JsPollFixedAgrees | src/finaltest.ts:209-216 | on scripts without a `failed` reply the corrected loop behaves as the code as written |

## Left out

- HMAC-SHA1, base64 and the random bytes behind the nonces are outside the model. The HMAC is a function parameter. Each nonce and timestamp is a `Stamp` parameter. Only the text the code makes of the random bytes is modelled (`Nonce`). The unfiltered base64 nonces of finaltest.ts, authtest.ts, mediaTweet.ts and the Python files are opaque strings.
- The clock (`generateTimestamp`, `generate_timestamp`) is part of the `Stamp` parameter.
- HTTP, JSON parsing and the `qs.stringify` / `urlencode` bodies are outside the model. Replies are parameters carrying the status code and the fields the code reads.
- `setTimeout` and `time.sleep`: the polls record each requested delay and do not wait. In Python a negative delay ends the poll with `SleepRejected`, as the `ValueError` of `time.sleep` does; in TypeScript it is recorded as given.
- Base64 decoding of the video (`Buffer.from(…, 'base64')`, `b64decode`) is not modelled. The decoded size or bytes are parameters.
- `Math.ceil` over floating point is modelled as exact integer ceiling division, which agrees with the floating-point quotient for every payload below 2^40 elements.
- JavaScript object key order for integer-like names, which JavaScript lists first, is not modelled. No name the code uses is integer-like.
- `toUpperCase` / `upper` are modelled on ASCII only. Every method the code passes is ASCII.
- Strings are Dafny strings, which cannot hold the lone surrogates for which `encodeURIComponent` throws.
- An absent `accessToken` / `accessTokenSecret` in src/outh.ts and src/testoAuth.ts is modelled as `""`, which the code treats alike.
- The Authorization header of an upload request is not stored in `Request`. It is `MediaUpload.Authorization` of the request's parameters and stamp.
- The `media_id_string` JSON value returned with `finalize_response.json()` is not modelled.
- A STATUS body whose `processing_info` is JSON `null` is not modelled. For that body Python raises `AttributeError`.
- The polls: a loop that would run forever is modelled up to the end of a finite scripted reply sequence, where it ends `StillPolling`.
- `uploadMedia` of src/testoAuth.ts (a multipart upload read from a file) is not modelled; its signing (`createOAuthHeader`) is.
- The `createTweet` functions, `main`, `test_twitter_connection`'s HTTP call, and the dotenv and console glue are not modelled.
- src/auth1.0a.ts, src/auth2.0.ts and src/index.ts are not part of this model.
- `./outh2`, the signer src/index.ts imports, is not among the repository's files and is not part of this model.
- Cancellation of a poll and input validation are not modelled: the code has neither.
- UploadVideoPy: loops over segment numbers and computes each offset as `segment * chunk_size`, where the code loops over `range(0, len(data), chunk_size)` and computes `i // chunk_size`. `Chunking.PythonOffsets` proves the two visit the same offsets with the same indices.

## Findings

| source | as written | input that shows it | evidently intended | confidence | as-written member | corrected member |
|---|---|---|---|---|---|---|
| src/outh.ts:27-30 | the parameter names are sorted raw and encoded afterwards (all seven copies) | names `aZ` and `a[`: the code gives `aZ=1&a%5B=2`; section 3.4.1.3.2 of RFC 5849 gives `a%5B=2&aZ=1` | encode names and values, then sort by encoded name | not executed; harmless for the names the code itself signs (`OAuth1.RfcAgreesOnUnreservedNames`) | OAuth1.RawSortDiffersFromRfc | OAuth1.RfcParamStringCanonical |
| src/finaltest.ts:209-216 | the loop exits only on a missing `processing_info` or `succeeded`, and waits only on `in_progress` (also src/authtest.ts:167-175) | every STATUS reply reports `state: 'failed'`: the loop queries again at once, forever | stop with an error on `failed`, as src/workatofinal.py:145-146 does | not executed | StatusPoll.JsPollSpinsOnFailed | StatusPoll.JsPollFixedOutcome |
