# Last-location cache of a Vue weather client, in Dafny

The weather client remembers the user's last geolocation in the browser's
`localStorage`: one JSON record `{coords: {lat, lon}, timestamp}` under the
key `vue-weather-last-location`, valid for 30 days (2 592 000 000 ms), plus a
reactive presence flag `hasLastLocation`. This project models that cache
(`src/composables/useLocationStorage.ts`) and proves its contracts.

- `wrappers.dfy` — `Option`, standing for JavaScript's `null` result and for a failed parse.
- `number_text.dfy` (module `NumberText`) — decimal text of integers as the JSON serialiser
  writes them (magnitudes below 10^21, which it writes without an exponent), a reader for it,
  and the proof that the reader inverts the writer.
- `location_json.dfy` (module `LocationJson`) — `Coords`, `StoredLocation`, and the record's
  JSON text: `Encode` plays `JSON.stringify`, `Decode` plays `JSON.parse` followed by the field
  accesses, with `None` for the `catch` path. `Decode(Encode(r)) == Some(r)` is proved, and so is
  the converse: the only texts that decode are encodings.
- `location_storage.dfy` (module `LocationStorage`) — the constants `StorageKey`
  (`"vue-weather-last-location"`, src/composables/useLocationStorage.ts:9) and `ExpirationMs`
  (`30 * 24 * 60 * 60 * 1000`, line 10), the pure view of a read
  (`Inspect`, classifying the stored entry as absent, corrupt, expired or current), and the
  class `LocationStore` whose fields are the storage (`store: map<string, string>`) and the flag.
  Its methods `SaveLastLocation`, `GetLastLocation`, `ClearLastLocation` and `CheckLastLocation`
  change those fields in place as the source does; each takes the clock reading `now` as a
  parameter in place of `Date.now()`. `Valid()` — the flag is set only while a parsable record
  is stored — is established by the constructor and kept by every method.

Boundary cases kept from the code: expiry is `now - timestamp > EXPIRATION_MS`, so a record
exactly 30 days old is still returned; an item that is the empty string is falsy and is
returned as "nothing stored" without being removed; a record with a timestamp in the future
is not expired; reading a current record or finding nothing leaves both the store and the flag
as they were, while a corrupt or expired record is removed and the flag cleared.

## Model

| member | source | states |
|---|---|---|
| LocationJson.Encode | src/composables/useLocationStorage.ts:16-20 | the text written for a record is never the empty (falsy) string and starts with `{` |
| LocationJson.Decode | src/composables/useLocationStorage.ts:29-31 | stands for `JSON.parse` and the reads of `coords` and `timestamp`; None is the caught failure; a text is read as a record only if it opens like one, so the empty string never is |
| LocationJson.DecodeEncode | src/composables/useLocationStorage.ts:20-29 | parsing the text that save writes gives back exactly the saved record |
| LocationJson.EncodeDecode | src/composables/useLocationStorage.ts:29 | any text that parses as a record is that record's encoding |
| LocationJson.DecodeIffEncode | src/composables/useLocationStorage.ts:20-29 | a text parses to record r if and only if it is r's encoding |
| LocationJson.EmptyIsNotARecord | src/composables/useLocationStorage.ts:27-29 | the empty string is not a parsable record |
| NumberText.ParseIntOfText | src/composables/useLocationStorage.ts:20-29 | reading back the text of an integer number gives that number and the text after it |
| NumberText.ParseIntIsInverse | src/composables/useLocationStorage.ts:29 | an integer is read only from its own canonical text, followed by a non-digit or the end |
| NumberText.TextOfValue | src/composables/useLocationStorage.ts:29 | every canonical digit run is the written text of its own value |
| LocationStorage.IsExpired | src/composables/useLocationStorage.ts:31 | a record is expired exactly when it is at least 2 592 000 001 ms old, that is strictly more than `EXPIRATION_MS` (30 days) |
| LocationStorage.Inspect | src/composables/useLocationStorage.ts:26-38 | classifies what a read finds under the key (absent or empty, corrupt, expired, current); a record reported current or expired is the one whose encoding is stored, and current means not expired at `now` |
| LocationStorage.LocationStore.constructor | src/composables/useLocationStorage.ts:12-13 | the cache starts over the existing storage with the flag false |
| LocationStorage.LocationStore.SaveLastLocation | src/composables/useLocationStorage.ts:15-22 | the key maps to the encoding of `{coords, timestamp: now}`, every other key is kept, the flag is true |
| LocationStorage.LocationStore.GetLastLocation | src/composables/useLocationStorage.ts:24-44 | returns the coords of a current record and None otherwise; a corrupt or expired record is removed and the flag cleared; absent or current leaves store and flag unchanged; never fails; with the flag/storage invariant, finding nothing means the flag is false |
| LocationStorage.LocationStore.ClearLastLocation | src/composables/useLocationStorage.ts:46-49 | the key is removed, other keys are kept, the flag is false |
| LocationStorage.LocationStore.CheckLastLocation | src/composables/useLocationStorage.ts:51-54 | afterwards the flag is true exactly when the store holds the encoding of a record that has not expired; when false, nothing but possibly the empty string remains under the key |
| LocationStorage.CurrentIffFreshEncoding | src/composables/useLocationStorage.ts:24-38 | a read finds a current record exactly when the stored text encodes a record at most 30 days old |
| LocationStorage.SaveThenInspect | src/composables/useLocationStorage.ts:15-38 | a record saved at t is found current at any now with now - t <= 30 days |
| LocationStorage.SaveThenInspectExpired | src/composables/useLocationStorage.ts:10-35 | a record saved at t is found expired at any now with now - t > 30 days |
| LocationStorage.ExpiryBoundary | src/composables/useLocationStorage.ts:10-31 | the boundary is strict: exactly 2 592 000 000 ms old is current, one millisecond more is expired |
| LocationStorage.UnparsableIsEvicted | src/composables/useLocationStorage.ts:39-43 | a non-empty stored text that is no record's encoding is read as corrupt and is evicted |
| LocationStorage.OtherKeysUntouched | src/composables/useLocationStorage.ts:20-47 | save and clear leave every key other than the storage key as it was |
| LocationStorage.ClearIdempotent | src/composables/useLocationStorage.ts:46-49 | after clearing nothing is stored under the key, and clearing twice equals clearing once |
| LocationStorage.SaveThenGet | src/composables/useLocationStorage.ts:15-38 | save then read within 30 days returns the saved coords and changes neither store nor flag |
| LocationStorage.SaveThenGetExpired | src/composables/useLocationStorage.ts:15-35 | save then read after more than 30 days returns nothing, removes the record and clears the flag |
| LocationStorage.ClearTwice | src/composables/useLocationStorage.ts:46-49 | two clears leave the same state as one |

## Left out

- JSON grammar: `Encode`/`Decode` model the serialiser and parser on the one record shape the cache writes. `Decode` accepts exactly the texts `Encode` produces; other JSON texts the browser's parser would also accept (whitespace, reordered or extra keys, exponent forms, `-0`) are treated as unparsable here and so evicted.
- Numbers: `lat`, `lon` and `timestamp` are JavaScript doubles; they are modelled as integers, and the text of an integer is the serialiser's plain decimal form, which it uses for magnitudes below 10^21 (larger ones it writes with an exponent). The cache only copies `lat`/`lon` and subtracts integer millisecond timestamps, so the floating-point text form and rounding are not modelled.
- Records that parse but lack a numeric `timestamp` (the comparison with `NaN` is false, so the source returns whatever `coords` holds) are a quirk of the JavaScript runtime and are not modelled.
- `console.warn` on a parse failure is output only and is left out.
- Vue reactivity (`ref`, `onMounted`): the flag is a plain field; mounting the view is one call of `CheckLastLocation`.
- `Date.now()` is the parameter `now`; the storage is the field `store`. Writes to the storage from other tabs or other code between calls, and `setItem` throwing when the storage quota is exhausted, are not modelled.
- `src/types.d.ts` holds only type declarations; `Coords` (lines 1-4) is reused as a datatype, the response shapes are not modelled.
- `debounce` (src/lib/utils.ts, src/funks.ts): timer scheduling with `setTimeout`/`clearTimeout`, asynchronous and not part of this model.
- `kelvinToCelsius`, `formatTime`, `setBodyClass`, `cn` (src/lib/utils.ts): floating-point rounding, locale date formatting, DOM class changes and wrappers over external styling libraries; none is part of this model.
