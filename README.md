# Divination worker: a verified model

`worker.js` is a Cloudflare Worker. It stores tarot-card images and deck id
lists in an R2 bucket and serves random cards from those lists. This
project models the logic of its three endpoints and their helpers in Dafny:

- **`POST /updateCacheCardId`** (module `DeckCache`). A batch of
  `{deck, ids}` entries is refused without a matching bearer token (401)
  or a JSON content type (400), the same request guards as the upload's,
  and then goes through three batch-level guards. Each entry
  is then checked against the deck allow-list `{love, money, career,
  daily}`. Its id list is normalised: stringified, trimmed, emptied values
  dropped, de-duplicated in first-occurrence order. The entry is refused
  for an empty list, more than 5000 ids, a document over 512 KiB or a failed
  `put`; otherwise it is written to `cache/card-ids-<deck>.json`. When
  no entry makes the loop body throw, every entry ends up in exactly one of
  `saved` and `errors`. When `String` throws on an entry's `deck` or on one
  of its ids (a parsed object with its own `toString` member), the loop
  stops there. The worker then answers 500 unhandled_exception, and the
  puts of the earlier entries stay in the bucket.
- **`GET /getCardId`** (module `Draw`). The deck name is trimmed and made
  path-safe, then checked against the allow-list. `n` is clamped to
  [1, 50]. The deck's document is read and its pool filtered; an `ids`
  item on which `String` throws gives 500 unhandled_exception. `min(n,
  pool)` ids are sampled: the full shuffle when all of the pool is asked
  for, the partial one otherwise.
- **The sampling engine** (module `Sampling`). `shuffleThenSlice` is a full
  Fisher–Yates shuffle of a copy. `sampleUnique` is a partial Fisher–Yates
  that shuffles out only the first k places. Both are array-swap loops on a
  fresh array. Their random indices come from an oracle sequence, each
  within the range the source's `(Math.random() * m) | 0` can produce.
- **`POST /upload`** (module `Upload`). The checks run in the handler's
  order: the Bearer token, the JSON content type, the file and key fields,
  the key rule, and the size estimate. A key or overwrite flag on which the
  string conversion throws ends the handler with 500 unhandled_exception. The file's base64 text is then
  decoded (module `Base64`, `decodeBase64Flexible` followed by a
  forgiving-base64 `atob` as the WHATWG Infra standard defines it). When
  overwriting is not allowed, the `head` check runs. Finally the `put`.

The supporting modules are:

- `JsValue`: JSON values, with `undefined`, plus the coercions used: truthiness, `||`, `??`, property access and `String(v)`, together with the values on which `String(v)` throws.
- `Text`: `trim`, the `\s` class, ASCII lower-casing, `includes`/`startsWith`/`endsWith`, and UTF-8 and UTF-16 lengths.
- `Wrappers`: `Option` and `Result`.

The R2 bucket appears as a `map` in two places: the deck documents of the
batch update and the draw (`DeckCache.Bucket`), and the uploaded objects
(`Upload`). Its calls are inputs: an optional document for a read, a success
flag for a write, and a throw flag for `head`. Each imperative routine is a
`method` whose `ensures` ties its result and new state to a specification
function: the two shuffles to the reference shuffles `ShuffleDown` and
`ShuffleUp`, the batch loop to `SavedOf`, `ErrorsOf` and `Written`, the draw
to `DrawPlan`, the upload to `Screen`, `StoreOutcome` and `UploadOutcome`,
the base64 decode to `DecodeFlexible`. The properties are lemmas about those
functions, or `ensures` of the functions themselves.

## Model

| member | source | states |
|---|---|---|
| Text.IsJsSpace | worker.js:182 | the white space `trim()` strips: in the ASCII range exactly the space and the tab-to-carriage-return controls (9 to 13); no code point above U+FEFF |
| Text.Trim | worker.js:182 | `trim()` returns a slice of the text with only white space cut off at both ends, and the result neither begins nor ends with white space |
| Text.TrimSurrounded | worker.js:422-423 | trimming a token that has white space around it gives the token back |
| Text.AsciiLower | worker.js:55 | lower-casing keeps the length and lower-cases each ASCII capital, leaving every other character |
| Text.ContainsLowered | worker.js:407-408 | a lower-case pattern occurs in the lower-cased text exactly where it occurs in the text, ignoring ASCII case |
| Text.Utf8Length | worker.js:43 | the UTF-8 byte count of a string lies between its length and four times its length |
| Text.Utf16Length | worker.js:65 | `.length` counts between one and two UTF-16 code units per character |
| Text.Utf16LengthConcat | worker.js:354-356 | the UTF-16 length of a concatenation is the sum of the lengths |
| Text.NatToString | worker.js:214 | `String(n)` is a non-empty run of decimal digits whose value is n, with no leading zero |
| JsValue.Truthy | worker.js:152 | the falsy values are exactly `undefined`, `null`, `false`, `0` and "" |
| JsValue.Or | worker.js:181-182 | `a \|\| b` is a when a is truthy, and b otherwise |
| JsValue.Coalesce | worker.js:55 | `a ?? b` is b exactly when a is `undefined` or `null`, and a otherwise |
| JsValue.Lookup | worker.js:28 | a result other than `undefined` is the value of a member with that name, and a read of a name no member has is `undefined`; that a present name is found, and its last member, is `LookupFindsLast` |
| JsValue.LookupFindsLast | worker.js:28 | when some member has the name, the read yields the value of the last such member, as JSON.parse keeps the last duplicate |
| JsValue.Field | worker.js:182 | `v.key` is the member's value on an object and `undefined` on anything else |
| JsValue.StringThrows | worker.js:193 | only an object or an array can make `String` throw, and an array does exactly when one of its items does; the same test serves the conversions at worker.js:29, 55, 182, 292 and 342 |
| JsValue.ToJsString | worker.js:193 | for a value on which it does not throw, `String(v)` is the string itself for a string, "" for an empty array, and the item's text for a one-item array (`null`/`undefined` giving "") |
| Sampling.ToInt32 | worker.js:379 | `x \| 0` is congruent to x modulo 2^32, lies in the signed 32-bit range, and is x itself when x is in that range |
| Sampling.SliceEnd | worker.js:373 | `slice(0, k)` stops at k when it lies within the array, at the end for a larger k, and counts from the end for a negative k |
| Sampling.Exchange | worker.js:371 | exchanging places i and j swaps those two elements, keeps every other one and keeps the multiset |
| Sampling.ShuffleDown | worker.js:369-372 | the reference full Fisher-Yates (step i from len-1 down to 1 exchanges i and its pick) keeps the length and the multiset of the pool |
| Sampling.ShuffleUp | worker.js:385-388 | the reference partial Fisher-Yates (step i from 0 exchanges i and i plus its pick) keeps the length and the multiset of the pool |
| Sampling.Swap | worker.js:371 | the array becomes the old one with a[i] and a[j] exchanged, the position record is exchanged the same way, and every element still comes from a distinct position of the pool |
| Sampling.Copy | worker.js:368 | `arr.slice()` is a fresh array holding the pool's elements |
| Sampling.ShuffleThenSlice | worker.js:367-374 | the result is the first `SliceEnd(len, k)` elements of the reference full shuffle of the pool under the picks; they come from pairwise-distinct positions of the pool, form a sub-multiset of it, and a permutation of it when all are taken; the pool is a value and is not changed |
| Sampling.SampleCount | worker.js:379 | for n in the signed 32-bit range, which covers every count the draw passes (at most 50), the count is `max(0, min(n \| 0, len))`: n within [0, len], len above, 0 for a non-positive n; it never exceeds len |
| Sampling.SampleUnique | worker.js:377-390 | nothing when the count is 0; the reference full shuffle when the count is the pool size; otherwise the first count elements of the reference partial shuffle; always exactly `SampleCount(len, n)` elements from pairwise-distinct positions of the pool, a sub-multiset of it |
| Sampling.PartialShuffle | worker.js:383-389 | the partial loop's result is the first k elements of the reference partial shuffle, from distinct positions of the pool |
| Sampling.PartialStep | worker.js:385-388 | one step of the partial loop moves the array from step i to step i+1 of the reference partial shuffle |
| Sampling.PrefixDrawn | worker.js:373 | the first e elements of a rearranged copy come from distinct positions of the pool and form a sub-multiset of it |
| DeckCache.CacheKey | worker.js:225 | the key is `cache/card-ids-`, then the deck name unchanged, then `.json`, 20 characters longer than the name |
| DeckCache.DeckDocument | worker.js:212-216 | reading the document back gives `ids` as an array of the ids as strings, in order; `total` is decimal text whose value is the number of ids; `updatedAt` is the given time stamp |
| DeckCache.CacheKeyInjective | worker.js:225 | distinct decks are written under distinct keys |
| DeckCache.IdText | worker.js:193 | a falsy id becomes "", any other id the trim of `String(v)` |
| DeckCache.NonEmpty | worker.js:193 | `filter(Boolean)` keeps exactly the non-empty strings, each as often as it occurs (same multiset minus the empty ones) |
| DeckCache.NonEmptyInInputOrder | worker.js:193 | the filtered list reads off the non-empty strings at increasing positions of the input, one for each non-empty string, so order and repetitions are kept |
| DeckCache.Dedupe | worker.js:192-194 | `Array.from(new Set(xs))` has no duplicates and the same members |
| DeckCache.DedupeKeepsFirstOccurrenceOrder | worker.js:192-194 | the de-duplicated list follows the order of first occurrences |
| DeckCache.NormalizeIds | worker.js:190-196 | the normalised ids have no duplicates and no empty string, and a non-array `ids` gives `[]` |
| DeckCache.NormalizeIdsMembers | worker.js:190-196 | an id is in the normalised list exactly when it is the non-empty trimmed text of a truthy input item |
| DeckCache.NormalizeIdsOrder | worker.js:190-196 | the normalised ids follow the order of their first occurrences in the input |
| DeckCache.EntryDeck | worker.js:181-182 | the deck of an entry is the trimmed text of its `deck` member, "" for a falsy entry, with no white space at either end |
| DeckCache.Decide | worker.js:184-243 | an entry is saved exactly when its deck is allowed, it has 1 to 5000 ids, its document is at most 512 KiB and the put succeeds; a saved entry records its deck, its id count and its cache key, a failure its deck and index |
| DeckCache.DecideReportsFirstFailure | worker.js:184-243 | an entry fails with the first failing check in the order invalid_deck, empty_ids_array, too_many_ids, deck_payload_too_large, r2_put_error; it is saved exactly when none fails, with its deck, its id count (1..5000) and its cache key |
| DeckCache.Entries | worker.js:149 | an array body's entries are its items; any other body is a single entry, the body itself |
| DeckCache.BatchRejection | worker.js:149-171 | empty_payload for no entries or one falsy entry; otherwise payload_too_large when the estimate exceeds 512 KiB (body text over 699,051 code units); otherwise too_many_decks above 20 entries; otherwise none |
| DeckCache.BatchGate | worker.js:129-142 | the batch is refused as unauthorized exactly when the bearer token does not match the configured secret, and for its content type exactly when it is authorised but the content type is not JSON; it passes exactly when both hold |
| DeckCache.RejectionStatus | worker.js:129-170 | a batch rejection answers 401 exactly when unauthorized, 413 exactly when the payload is too large, and 400 otherwise |
| DeckCache.Outcomes | worker.js:180-244 | there is one outcome per entry, and every failure records its own index |
| DeckCache.SavedPlusErrors | worker.js:176-244 | every processed entry ends up in exactly one of `saved` and `errors` |
| DeckCache.ErrorsInInputOrder | worker.js:180-243 | `errors` lists every failed entry once, with its index, in input order |
| DeckCache.SavedInInputOrder | worker.js:180-243 | `saved` lists every saved entry once, in input order |
| DeckCache.Written | worker.js:225-235 | after the writes, a key is present exactly when it was before or some saved entry writes it |
| DeckCache.WrittenLastWins | worker.js:228-235 | the bucket holds the document of the last saved entry for each deck |
| DeckCache.WrittenLeavesOtherKeys | worker.js:228 | keys that no saved entry writes are left as they were |
| DeckCache.EntryThrowsMeaning | worker.js:181-196 | the loop body throws on an entry exactly when `String` throws on its `deck`, or when its deck is allowed and `String` throws on its `ids` array |
| DeckCache.FirstThrow | worker.js:176-196 | the position of the first entry the body throws on: no entry before it throws, and the entry there does, unless it is the end |
| DeckCache.ProcessEntry | worker.js:181-243 | one loop iteration throws exactly when the entry makes it throw, and then leaves the bucket alone; otherwise it yields the entry's outcome and writes the deck's whole document exactly when the entry is saved |
| DeckCache.ProcessEntries | worker.js:176-244 | the loop builds `saved`, `errors` and the bucket from the outcomes of the entries before the first throw, in order; it reports a throw exactly when some entry throws, and otherwise covers all entries |
| DeckCache.UpdateCacheCardIds | worker.js:128-247 | a request without the matching bearer token is refused with 401 and writes nothing; so is one refused by `BatchGate` for its content type (400) or by a batch-level rejection (empty_payload 400, payload_too_large 413, too_many_decks 400); when the loop body throws, the response is 500 unhandled_exception (the outer handler at worker.js:318-323) and the bucket holds the puts of the entries before that one; otherwise the response holds the saved entries and errors of all entries, `ok` is true exactly when there are no errors, and the status is 200 then and 207 otherwise |
| Draw.SafeDeckName | worker.js:263 | the rewrite keeps the length, turns every '/' and '\\' into '-', leaves no '/' or '\\', and changes nothing else |
| Draw.ClampCount | worker.js:268-271 | n is the request within [1, 50], 50 above it, and 1 for anything that is not a positive finite number |
| Draw.Texts | worker.js:292 | `map(String)`: one text per item, in order, each the item's `String` |
| Draw.Pool | worker.js:291-293 | no pool when `ids` is not an array; otherwise the pool holds every non-empty `String(id)` as often as it occurs, and no empty one |
| Draw.PoolInOrder | worker.js:291-293 | the pool lists the non-empty `String(id)`s at increasing positions of the `ids` array, one for each such id |
| Draw.DrawStatus | worker.js:258-323 | 400 exactly for missing_deck and invalid_deck, 404 exactly for cache_not_found and cache_empty, 500 exactly for r2_get_error and unhandled_exception |
| Draw.PoolThrows | worker.js:291-293 | `obj.ids.map(String)` throws exactly when `ids` is an array on which `String` throws |
| Draw.DrawPlan | worker.js:257-271 | a blank deck parameter is missing_deck; a name outside the allow-list after the path-safe rewrite is invalid_deck; an allowed deck is read with the clamped n |
| Draw.ReadPlan | worker.js:273-323 | no document is cache_not_found, an unreadable one r2_get_error, an `ids` array with an item `String` throws on unhandled_exception, and an empty pool cache_empty; otherwise `min(n, pool)` ids of the document's pool are sampled with its `updatedAt`, `null` when absent |
| Draw.SamplePlanBounds | worker.js:257-303 | a draw samples between 1 and 50 ids, never more than the pool holds, from an allowed deck's non-empty pool read at that deck's key |
| Draw.SlashedDeckRefused | worker.js:263-266 | a deck name with a slash or backslash is refused as invalid_deck |
| Draw.AllowedDeckIsItsOwnName | worker.js:257-264 | an allowed deck name passes the trim and the path-safe rewrite unchanged |
| Draw.StoredDeckServed | worker.js:273-323 | an allowed deck with a readable document with a non-empty pool is served from that pool with `min(n, pool)` ids, unless converting its `ids` throws, which is unhandled_exception |
| Draw.GetCardId | worker.js:257-315 | every refusal carries the plan's error and status (missing_deck and invalid_deck 400, cache_not_found 404, r2_get_error 500, cache_empty 404, unhandled_exception 500) and its deck, "" for missing_deck; a draw returns the full reference shuffle of the pool when the count is its size and the first count elements of the partial one otherwise, from distinct positions of the pool, with the deck, `totalInDeck` (the pool size) and `updatedAt` |
| Draw.Respond | worker.js:258-315 | a refusal is answered with the plan's error, the status that error carries and its deck; a sample with `count` ids from distinct positions of the pool, the full reference shuffle when all are taken and the first `count` of the partial one otherwise, together with the pool size and the document's `updatedAt` |
| Draw.Choose | worker.js:299-303 | for a count between 1 and the pool size, the full shuffle is used exactly when all of the pool is asked for, and the partial one otherwise; either way `count` ids from distinct positions, a sub-multiset of the pool, and a permutation of it when all are taken |
| Draw.AllowedDeckIsRead | worker.js:257-273 | an allowed deck given as the parameter goes straight to the bucket read, with the clamped count |
| Draw.LastSavedWritten | worker.js:225-235 | after a batch, the key of the last entry saved for a deck holds that entry's document, and the deck is allowed with a non-empty id list |
| Draw.DocumentServed | worker.js:273-311 | an allowed deck whose key holds a document written for non-empty ids is served from exactly those ids, with the document's time |
| Draw.DrawServesLastSavedIds | worker.js:225-235 | after a batch update, drawing a deck samples from the normalised ids of the last entry saved for it and reports that entry's `updatedAt` |
| Draw.DocumentPool | worker.js:212-216 | reading back a written deck document gives its ids as the pool, never throws, and gives its time as `updatedAt` |
| Base64.IndexOf | worker.js:345 | `indexOf` gives the first occurrence, and -1 exactly when the character is absent |
| Base64.StripDataUrl | worker.js:344-348 | everything up to and including the first comma is cut off when the text starts with "data:" and has a comma; otherwise the text is kept |
| Base64.Filter | worker.js:350 | the kept characters satisfy the test, are exactly the text's characters that do, and the whole text is kept when all do |
| Base64.RemoveSpaces | worker.js:350 | the result has no white space and consists of the non-space characters of the text; a single character is dropped exactly when it is white space |
| Base64.RemoveSpacesConcat | worker.js:350 | removing white space from a concatenation removes it from each part, so the other characters keep their order and repetitions |
| Base64.UrlSafeToStandard | worker.js:352 | '-' becomes '+' and '_' becomes '/', and nothing else changes |
| Base64.Pad | worker.js:354-357 | a text whose length is 1 mod 4 is refused with invalid length; any other text is extended only by '=' signs, at most two, to a length that is a multiple of 4 |
| Base64.Cleaned | worker.js:342-352 | the text given to `atob` has no white space, '-' or '_' |
| Base64.Group | worker.js:360 | a group of 2, 3 or 4 letters gives 1, 2 or 3 bytes whose bits are the letters' sextets, the leftover low bits dropped |
| Base64.DecodeLetters | worker.js:360 | a run of letters gives a binary string of `len - ceil(len / 4)` characters |
| Base64.DropPadding | worker.js:360 | one or two trailing '=' are dropped from a text whose length is a multiple of 4, and nothing else |
| Base64.Atob | worker.js:360 | a successful `atob` yields a binary string (every char below 256); each failure is an InvalidCharacterError. Which texts are accepted, and that an accepted text is the encoding of its result once padded and with its leftover bits cleared, is left to the body; the contract and `AtobOfEncode` state only the encode-then-decode direction |
| Base64.DecodeFlexible | worker.js:341-364 | the decode fails with a TypeError exactly when `String(input \|\| "")` throws, and otherwise with invalid length exactly when the cleaned text's length is 1 mod 4 |
| Base64.AtobOfEncode | worker.js:360 | `atob` decodes the padded RFC 4648 encoding of any bytes back to those bytes |
| Base64.FlexibleDecodesStandard | worker.js:341-364 | the padded standard encoding of any bytes decodes back to them |
| Base64.FlexibleDecodesUrlSafe | worker.js:341-364 | the unpadded base64url encoding of any bytes decodes back to them |
| Base64.FlexibleDecodesDataUrl | worker.js:341-364 | a data URL `data:<type>,<encoding>` decodes back to the encoded bytes |
| Base64.DataUrlStripped | worker.js:344-348 | the data-URL step cuts `data:<type>,<text>` down to the text when the type holds no comma |
| Base64.CopyBinary | worker.js:361-363 | the byte array holds the char codes of the binary string |
| Base64.CleanInput | worker.js:342-352 | the step-by-step rewrite of `s` gives the cleaned text |
| Base64.DecodeBase64Flexible | worker.js:341-364 | it throws exactly when the decode specification fails, with the same error, and otherwise returns a fresh array of the decoded bytes |
| Upload.BearerToken | worker.js:421-422 | the token exists exactly when the header starts with "Bearer ", and is then the trimmed rest |
| Upload.Authorized | worker.js:420-423 | authorised exactly when a token is configured, the header starts with "Bearer ", and the trimmed rest equals the token |
| Upload.BearerHeaderAccepted | worker.js:420-423 | a header with the configured token after "Bearer ", with any white space around it, is authorised |
| Upload.UnmatchableTokens | worker.js:420-423 | nobody is authorised when no token is configured, or when the configured token begins or ends with white space |
| Upload.ContentTypeAccepted | worker.js:406-408 | the content type is accepted exactly when "application/json" occurs in it, in any ASCII case |
| Upload.KeyProblem | worker.js:43-52 | bad_key_length exactly when the key is empty or over 1024 UTF-8 bytes; otherwise bad_key_path exactly when it starts or ends with '/' or holds ".."; otherwise bad_key_control_chars exactly when it holds U+0000–U+001F or U+007F; otherwise no problem |
| Upload.DoubleDots | worker.js:47 | `includes("..")` holds exactly when two dots stand next to each other |
| Upload.AllowOverwrite | worker.js:54-55 | overwriting is allowed exactly when `String(overwrite ?? "false")` spells "true" in any ASCII case; a missing or null flag never allows it |
| Upload.ContentTypeOrDefault | worker.js:56-61 | the stored type always matches `^[\w.+-]+/[\w.+-]+$`; it is the request's type when that matches, and application/octet-stream otherwise |
| Upload.LengthOf | worker.js:65 | `fileBase64.length` is defined for strings and arrays only, a string's counting one or two code units per character |
| Upload.TooLarge | worker.js:63-67 | the size estimate exceeds 10 MiB exactly when the base64 text is longer than 13,981,014 code units |
| Upload.RawKey | worker.js:28-29 | the key is "" when missing or falsy, the trim of a string key, and never has white space at either end |
| Upload.UploadStatus | worker.js:8-107 | 401 exactly for unauthorized, 409 exactly for object_already_exists, 413 exactly for payload_too_large, 500 exactly for r2_head_error, r2_put_error and unhandled_exception (the outer handler at worker.js:318-323), 400 exactly for the other refusals |
| Upload.KeyThrows | worker.js:29 | `(key \|\| "").toString()` throws exactly when `String` throws on the key member |
| Upload.OverwriteThrows | worker.js:54-55 | `String(overwrite ?? "false")` throws exactly when `String` throws on the overwrite member |
| Upload.Screen | worker.js:9-67 | the first failing check names the error: unauthorized, then content_type_must_be_application_json, then unhandled_exception for a key that throws, then missing_fileBase64_or_key, then the key's problem, then unhandled_exception for an overwrite flag that throws, then payload_too_large; the checks pass exactly when none fails, giving the canonical key, the file, the overwrite flag and the content type |
| Upload.StoreOutcome | worker.js:70-117 | bad_base64 when decoding fails; otherwise, without overwrite, r2_head_error when head throws and object_already_exists when the key exists; otherwise r2_put_error exactly when the put fails; a refusal leaves the bucket unchanged; a success stores the decoded bytes under the key |
| Upload.UploadOutcome | worker.js:9-117 | a refusal leaves the bucket as it was and carries its error's status; an upload changes only the object under its key, which satisfies the key rule |
| Upload.CheckRequest | worker.js:9-67 | the step-by-step checks give the check specification's verdict |
| Upload.StoreDecoded | worker.js:70-117 | decoding and storing, step by step, give the storing specification's response and bucket |
| Upload.HandleUpload | worker.js:9-117 | the handler's response and new bucket are those of the upload specification |
| Upload.AuthorisationFirst | worker.js:9-22 | an unauthorised request gets 401 before anything else is looked at; a wrong content type gets 400 right after |
| Upload.UploadedExactlyWhenAccepted | worker.js:9-117 | an upload happens exactly when every check passes |
| Upload.UploadStoresDecodedFile | worker.js:70-117 | an upload stores the decoded file with the checked content type under the canonical key; that key satisfies the key rule; the size is the byte count; no other object changes |
| Upload.NoSilentOverwrite | worker.js:54-89 | without an overwrite flag spelling "true", an existing object is never replaced |

## Left out

- HTTP routing, `Request`/`Response` construction and the `j` helper (worker.js:329-334). Responses are datatypes carrying the error and the status. The missing_deck response (worker.js:258) has no `deck` field; the model's `Failure` always has one and sets it to "" there. Likewise the unhandled_exception response (worker.js:318-323) has no `deck` field, though the draw's `Failure` carries the deck, and its `detail` text (the TypeError's message) is not modelled.
- `Validators.env` (worker.js:393-404). Every handler is modelled with the bucket binding present.
- `Validators.json` (worker.js:434-447) and the `body?.ok === false` early return (worker.js:26 and 146). The body is taken as an already-parsed value, so the model processes a body carrying `"ok": false`: it writes deck documents or uploads the file, where the source returns that body before any write.
- R2 `get`/`head`/`put` are inputs. A read is what the bucket map holds: a document, unreadable content, or nothing. A `get` that throws is modelled only for a present key, as `Unreadable`; a throw on an absent key, which the source answers with r2_get_error, cannot be expressed, so `ReadPlan` answers cache_not_found for every absent key and `DrawServesLastSavedIds` takes the read after the write to succeed. A write is a success flag. A head is a throw flag plus whether the key exists. The etag in the upload response is not modelled, and neither are the HTTP and custom metadata of a put.
- `Math.random()` and its uniformity. Each draw is an index from an oracle sequence, within the range the source's expression yields. The model proves what holds for every such sequence, not a distribution.
- `JSON.stringify` lengths (the batch and per-deck size estimates) and `new Date().toISOString()` are inputs.
- `parseInt` is left abstract: its result is an input of type `ParsedInt`.
- `decodeURIComponent` (with its silent failure) followed by `normalize("NFC")` is the input function `canon`.
- `String(v)` of a number is the number's text, carried in the JSON value.
- Strings are sequences of Unicode scalar values, so lone surrogates cannot be represented. `.length` is counted in UTF-16 code units.
- Upload.LengthOf: `fileBase64.length` is taken as undefined for every value that is neither a string nor an array, including an object with its own `length` member.
- Text.AsciiLower: `toLowerCase` is modelled on ASCII letters only. This is exact for the two comparisons it feeds. The only non-ASCII characters that lower-case to ASCII are KELVIN SIGN (to 'k') and U+0130 (to "i" plus a combining dot). Neither can complete "true" or "application/json" in the way an ASCII letter could.
- One bucket: the source has a single R2 bucket, but the model keeps the deck documents (`DeckCache.Bucket`) and the uploaded objects (`Upload`) in two separate maps. `/upload` accepts a key such as `cache/card-ids-love.json`, so with the same token an upload can replace a deck document that `/getCardId` then reads; the model does not express that path. The draw is still specified for any content at a deck key, readable or not, since `Pool` and `ReadPlan` take an arbitrary document.
- Concurrency between requests is out of scope for a sequential model, including the head-then-put race (worker.js:77).
- A daily quota or gated draw is not part of the source and is not modelled.
