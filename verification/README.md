# Device identity and telemetry ingestion, modelled in Dafny

This project models the server-side trust logic of a DePIN sensor system:

- the device registry (the `devices` table and its four operations);
- the telemetry ingestion handler, which maps a signed sensor reading to an
  HTTP status and a new state;
- the two-phase enrollment handler (challenge issue, then signed response);
- the revocation handler;
- the Python gateway, which hashes a payload's canonical JSON and stores it
  under a key derived from that hash.

Each handler is a pure function. It takes the state (the registry, plus the
rate-limit locks and stored payloads of the key-value cache), the request,
and what the outside world answers. It returns an outcome and the new state.
The outside world means the clocks, the ledger's owner of an NFT, whether
each best-effort write fulfilled, random bytes, SHA-256 and secp256k1
verification.

Modules:

- `Basics`: optional values, partial updates, bytes, lowercase hex, UTF-8,
  and the cryptographic oracles.
- `Json`: the JSON value model. It covers null, booleans, integers, strings,
  arrays and objects, as in RFC 8259. It also holds the three sorted-key
  serializers the system uses:
  - Python `json.dumps(sort_keys=True)` with compact separators;
  - the same with default separators;
  - `json-stable-stringify`.

  It also reads back the literals they print: integer literals (section 6
  of RFC 8259) and string literals (section 7 of RFC 8259), so the escaping
  loses nothing.
- `Reader`: a reader for whole serialized texts, covering literals,
  numbers, strings, arrays and objects with each format's separators. Every
  serialization reads back as a value equal to the original as a map. So in
  each format two well-formed payloads print the same text exactly when they
  are equal as maps.
- `Canonical`: the proofs that these serializations are canonical.
  - Key order is a strict total order.
  - Sorting yields the unique ascending arrangement.
  - Payloads equal as maps serialize alike.
  - Python's output is ASCII.
  - On every non-empty object, the text Python stores differs from the text
    it hashes.
- `Registry`: `lib/deviceRegistry.ts`.
- `Telemetry`: the `POST` of `app/api/sensor-data/route.ts`.
- `Enrollment`: the `POST` of `app/api/register-device/route.ts`, both as
  written and corrected.
- `Revocation`: the `POST` of `app/api/revoke-device/route.ts`.
- `Gateway`: `generate_hash`, the key format and `process_sensor_data` of
  `app/api/iot-getaway.py`.
- `Lifecycle`: the handlers interleaved over one shared state.

Behaviours of the code that a reader might expect to be otherwise:

- **No replay rejection.** The code records `lastTsSeen`, as the server
  clock in milliseconds rather than the payload timestamp, and never
  compares against it. `Telemetry.ReplayAcceptedAfterLockExpiry` proves that
  a replay is accepted once the lock expires.
- **Check order.** The telemetry checks run in this order: fields,
  timestamp type, freshness, rate limit, lookup and revocation,
  reconciliation, signature.
- **Write failures.** The telemetry handler answers success whatever the
  payload save and the `lastTsSeen` write do.
- **Challenges and revoked devices.** The enrollment challenge is not
  single-use (see Findings), and a revoked key can still request and answer
  challenges (`Enrollment.RegisterKeepsRevoked`).
- **No Merkle anchoring.** No Merkle tree is built anywhere in the code, so
  none is modelled.

## Model

| member | source | states |
|---|---|---|
| Basics.Sha256Hex | app/api/iot-getaway.py:43-44 | the digest text is 64 lowercase hex characters that decode back to SHA-256 of the text's UTF-8 bytes |
| Basics.UnhexHex | app/api/iot-getaway.py:44 | lowercase hex encoding round-trips: decoding the hex of any byte string gives the bytes back |
| Basics.HexInjective | app/api/register-device/route.ts:22 | distinct byte strings have distinct hex texts, so a hex challenge or digest determines its bytes |
| Json.Lookup | app/api/sensor-data/route.ts:101 | property access yields nothing exactly when no member has the key, otherwise the value of the last member with that key |
| Json.LookupUnique | app/api/sensor-data/route.ts:101 | on the unique keys a parser produces, property access finds each member's own value |
| Json.LookupAtKeyIndex | app/api/sensor-data/route.ts:101 | property access agrees with the position of the key's last occurrence: nothing when there is none, else that member's value |
| Json.NatTextValue | app/api/iot-getaway.py:42 | the decimal text of a natural number reads back as that number |
| Json.IntTextValue | app/api/iot-getaway.py:42 | the decimal text of any integer, negative ones included, is an integer literal (optional minus, then digits) that reads back as that integer |
| Json.IntTextInjective | app/api/sensor-data/route.ts:93 | distinct integers print differently |
| Json.EscapeChar | app/api/iot-getaway.py:42 | a character stands for itself exactly when it is neither quote nor backslash nor a control character, nor, under `ensure_ascii`, DEL or beyond ASCII. Otherwise it becomes a backslash escape. It is two characters exactly for quote, backslash, backspace, form feed, newline, carriage return and tab. It is `\u` and the code point's four lowercase hex digits exactly for the other control characters and, under `ensure_ascii`, for U+007F to U+FFFF. It is twelve characters (a surrogate pair) exactly under `ensure_ascii` beyond U+FFFF |
| Json.UnescapeEscapeText | app/api/iot-getaway.py:42 | every escaped text reads back, under the string-literal grammar, as the text it escapes, with and without `ensure_ascii` |
| Json.Serialize | app/api/iot-getaway.py:42-56 | the sorted-key serializer behind `json.dumps(..., sort_keys=True)` (compact separators in `generate_hash`, default ones in `save_data_to_redis`) and `stringify(payload)` (app/api/sensor-data/route.ts:93). The text is never empty. Its first character is `{`, `[` or `"` exactly for an object, array or string, and objects and arrays end with their closing bracket. Key order and escaping are stated by the rows for `Canonical.SortAscending` and `Json.EscapeChar`, and that the text loses nothing by the row for `Reader.SerializeInjective` |
| Json.SerializeReadsBack | app/api/iot-getaway.py:42-56 | a serialized integer reads back as itself and a serialized string as its text, in every format |
| Canonical.SameValueSymmetric | app/api/iot-getaway.py:40-44 | equality as maps at every nesting level is symmetric |
| Canonical.SameValueTransitive | app/api/iot-getaway.py:40-44 | equality as maps at every nesting level is transitive |
| Canonical.SortAscending | app/api/iot-getaway.py:42 | sorting members with distinct keys yields strictly ascending keys and a permutation of the input |
| Canonical.AscendingUnique | app/api/iot-getaway.py:42 | two ascending arrangements of the same entries are identical, so sorted output does not depend on input order |
| Canonical.SerializeRespectsSameValue | app/api/iot-getaway.py:40-44 | payloads equal as maps at every nesting level serialize to the same text in every format |
| Canonical.ReorderedObjectSerializesAlike | app/api/iot-getaway.py:40-44 | an object whose members are only rearranged serializes to the same text |
| Canonical.SerializeAscii | app/api/iot-getaway.py:42-43 | with `ensure_ascii` the serialization is pure ASCII |
| Canonical.LongerSeparatorsLongerText | app/api/iot-getaway.py:42-56 | longer separators never give a shorter text, and a longer key separator gives a strictly longer text on every non-empty object |
| Canonical.StoredTextDiffersFromHashedText | app/api/iot-getaway.py:42-56 | on a non-empty object the default-separator text differs from the compact text |
| Reader.ReadIntText | app/api/iot-getaway.py:42 | the printed text of any integer, followed by any text that does not start with a digit, reads as that integer and leaves the following text |
| Reader.ReadQuoted | app/api/iot-getaway.py:42 | a quoted, escaped string followed by any text reads as that string and leaves the following text, with and without `ensure_ascii` |
| Reader.ReadSerialized | app/api/iot-getaway.py:42-56 | in any format whose item separator starts with a comma, the serialization of a well-formed value followed by any text that does not start with a digit reads as a value equal to it as a map and leaves the following text |
| Reader.ReadBack | app/api/iot-getaway.py:42-56 | the whole serialization of a well-formed value reads back as a value equal to it as a map |
| Reader.SerializeInjective | app/api/iot-getaway.py:42-56 | two well-formed values have the same serialization exactly when they are equal as maps, so no two different payloads share a text |
| Reader.CanonicalTextsSeparate | app/api/sensor-data/route.ts:93 | for the compact text the gateway hashes, the default text it stores and the `stringify` text the device signs, equal text means equal as maps and any difference in content changes the text |
| Registry.GetByPubKey | lib/deviceRegistry.ts:20-34 | answers a stored row with that public key, and null exactly when no row has it |
| Registry.GetByNft | lib/deviceRegistry.ts:41-54 | answers the row carrying that NFT address only when it is the only such row; null means zero or several match |
| Registry.Upsert | lib/deviceRegistry.ts:63-80 | the row key is the patch's `publicKey` if it names one, else the argument; named columns take the patch's values, unnamed ones keep the previous row (or null for a new row), other rows are untouched, the stored row is returned |
| Registry.UpsertIdempotent | lib/deviceRegistry.ts:63-67 | applying the same upsert twice equals applying it once |
| Registry.UpsertKeepsRevoked | lib/deviceRegistry.ts:63-67 | an upsert that does not name `revoked` deletes no row and leaves every row's `revoked` as it was |
| Registry.UpsertEvolves | lib/deviceRegistry.ts:63-67 | an upsert naming neither key, NFT address nor `revoked` keeps every row, every NFT address and every revocation, and a new row has no NFT address |
| Registry.EvolvesKeepsNftMatches | lib/deviceRegistry.ts:41-54 | while rows are kept and NFT addresses never rewritten, each NFT address matches the same rows and its lookup answers the same row's current value |
| Registry.MarkRevoked | lib/deviceRegistry.ts:87-91 | rows carrying the NFT address get `revoked = true` with every other column unchanged; other rows are untouched |
| Registry.RevokeDevice | lib/deviceRegistry.ts:87-100 | with `count` read as the matched-row count: fails with "not found" exactly when no row carries the address; otherwise revokes exactly the matching rows |
| Registry.RevokeDeviceAsWritten | lib/deviceRegistry.ts:87-100 | as written, `count` is null, so the call always succeeds and revokes the matching rows, if any |
| Registry.RevokeUnknownNftWitness | lib/deviceRegistry.ts:98-100 | on an empty table the as-written call reports success, while the counted call reports "not found" |
| Registry.RevokeDeviceMonotone | lib/deviceRegistry.ts:87-91 | no row loses `revoked` |
| Telemetry.TimestampOf | app/api/sensor-data/route.ts:101-104 | a timestamp is found exactly when the payload is an object whose `timestamp` member is a number, and it is that number |
| Telemetry.Freshness | app/api/sensor-data/route.ts:107-117 | the stage passes exactly when `now-300 <= ts <= now+60`, both bounds inclusive; 408 exactly when `ts < now-300`; 400 exactly when `ts > now+60` |
| Telemetry.Reconcile | app/api/sensor-data/route.ts:139-144 | `ownerAddress` becomes the ledger owner exactly when that owner is truthy and differs from the stored one; nothing else in the table changes |
| Telemetry.Touch | app/api/sensor-data/route.ts:169-182 | a fulfilled write sets the device's `lastTsSeen` to the server clock in milliseconds and changes nothing else; a failed one changes nothing |
| Telemetry.Ingest | app/api/sensor-data/route.ts:87-217 | checks run in a fixed order: missing fields (400), then timestamp type (400), freshness (408/400), rate-limit lock (429), unknown device (404), revoked device (403), signature over the canonical payload text under the registered key (401), else 200. Each outcome holds exactly when its own check fails and every earlier one passes. Every outcome before reconciliation leaves the state unchanged. Only acceptance takes the lock, and a refusal never extends it. The payload text is stored under `iot_data:<nft>` exactly when the request is accepted and the save fulfils. No row appears or disappears. |
| Telemetry.AcceptedWhen | app/api/sensor-data/route.ts:87-217 | converse direction: a request with its fields, a number timestamp inside the window, no lock, a registered unrevoked device and a signature the device's key verifies is accepted |
| Telemetry.IngestRegistryEffect | app/api/sensor-data/route.ts:139-182 | after a signature check, only the matched device's row changes. `ownerAddress` follows the reconciliation rule. `lastTsSeen` becomes the server clock only on acceptance with a fulfilled write. All other columns are unchanged. |
| Telemetry.OutcomeIgnoresWriteFailures | app/api/sensor-data/route.ts:175-211 | the response is the same whether or not the payload save and the `lastTsSeen` write fulfil |
| Telemetry.AcceptedPayloadStored | app/api/sensor-data/route.ts:171-180 | an accepted payload's canonical text is stored under `iot_data:<nft>` when the save fulfils |
| Telemetry.ExpireLocks | app/api/sensor-data/route.ts:166 | expiry only removes locks and keeps stored data |
| Telemetry.LockedAfterAcceptance | app/api/sensor-data/route.ts:121-166 | right after an accepted request, the next in-window request for the same NFT address is refused with 429 and changes nothing, whatever its signature |
| Telemetry.ReplayAcceptedAfterLockExpiry | app/api/sensor-data/route.ts:169-182 | `lastTsSeen` is never compared: once the lock expires, the identical signed request is accepted again at any clock reading that keeps its timestamp in the window, whatever the ledger then answers |
| Telemetry.IngestEvolves | app/api/sensor-data/route.ts:87-217 | the handler adds no row and rewrites no NFT address or revocation |
| Telemetry.IngestStatus | app/api/sensor-data/route.ts:87-217 | the HTTP status is one of 200, 400, 401, 403, 404, 408, 429; 400 exactly for a missing field, a non-number timestamp or one more than 60 seconds ahead; 408 exactly for one more than 300 seconds old; 429 exactly when in the window and locked; 404 exactly for an unknown device past those; 403 exactly for a revoked one; 401 and 200 only for a registered, unrevoked device past the lock check; 200 exactly when the request is accepted |
| Enrollment.AnsweredNft | app/api/register-device/route.ts:70-73 | answers the stored NFT address when truthy, otherwise `NFT_` followed by the 32-hex-character encoding of the 16 random bytes |
| Enrollment.IssueChallenge | app/api/register-device/route.ts:13-27 | without a truthy `macAddress` and `publicKey` the answer is 400 and nothing changes. Otherwise the answer is always a challenge: the 64-character lowercase hex encoding of the 32 random bytes, stored with `macAddress` on the key's row. Every other column of that row keeps its value, or holds the new-row default (null, `revoked` false) on a row created here. Other rows are unchanged. |
| Enrollment.RespondAsWritten | app/api/register-device/route.ts:31-73 | missing fields give 400 with nothing written. The "Invalid challenge" outcome never occurs: a complete request is answered 401 "Invalid signature" or registered, and registered exactly when the signature over `sha256(challenge)` verifies. Either way, the key's row afterwards holds the client's challenge and otherwise equals the previous row, or a new row with defaults if there was none: the final write puts back the row's own `macAddress`. Other rows are unchanged. |
| Enrollment.Respond | app/api/register-device/route.ts:31-73 | corrected: 401 "Invalid challenge" exactly when the key has no row or its stored challenge differs. Nothing is written on failure. Success requires the stored challenge and a valid signature, and clears the challenge. |
| Enrollment.RespondRegistersWhen | app/api/register-device/route.ts:31-73 | corrected, converse direction: a complete response carrying the challenge stored on the key's row, with a signature the key verifies, registers the device |
| Enrollment.RegisterAsWritten | app/api/register-device/route.ts:13-36 | phase 1 is chosen exactly when both `challenge` and `signature` are absent; phase 2 answers neither a challenge nor the phase 1 error |
| Enrollment.Register | app/api/register-device/route.ts:13-36 | the same phase routing with the corrected phase 2 |
| Enrollment.RegisterKeepsRevoked | app/api/register-device/route.ts:25-67 | neither version changes `revoked`, so a revoked key still enrolls |
| Enrollment.AsWrittenIgnoresStoredChallenge | app/api/register-device/route.ts:45-48 | as written, whether phase 2 succeeds does not depend on the registry at all |
| Enrollment.UnissuedChallengeWitness | app/api/register-device/route.ts:45-67 | concrete input: with no challenge ever issued, the as-written phase 2 registers a self-chosen challenge and leaves it stored; the corrected one refuses it |
| Enrollment.AsWrittenReplayAccepted | app/api/register-device/route.ts:45-67 | as written, replaying a successful response succeeds again |
| Enrollment.ChallengeSingleUse | app/api/register-device/route.ts:64-67 | corrected: after a successful response the same response is refused with "Invalid challenge" |
| Enrollment.IssuedChallengeRegisters | app/api/register-device/route.ts:13-73 | corrected: the phase 1 challenge, signed by the key's holder, registers the device in phase 2 |
| Enrollment.RegisterEvolves | app/api/register-device/route.ts:25-67 | both versions keep every row, NFT address and revocation; a row they create has no NFT address |
| Enrollment.RegisterAsWrittenStatus | app/api/register-device/route.ts:13-73 | as written, the status is 200, 400 or 401: 400 exactly when phase 1 lacks `macAddress` or `publicKey` or phase 2 lacks a field, 401 exactly when a complete phase 2 signature fails, 200 otherwise |
| Enrollment.RegisterStatus | app/api/register-device/route.ts:13-73 | corrected, the status is 200, 400 or 401: 400 for the same missing fields, 401 exactly when a complete phase 2 has no matching stored challenge or a failing signature, 200 otherwise |
| Revocation.RevokeMessage | app/api/revoke-device/route.ts:20 | the signed text is `revoke:` followed by the NFT address |
| Revocation.RevokeMessageInjective | app/api/revoke-device/route.ts:20-23 | distinct NFT addresses give distinct signed texts |
| Revocation.Revoke | app/api/revoke-device/route.ts:8-35 | missing fields give 400; an unknown address gives 404; an already-revoked device gives 400 before any signature check. The signature is checked over the SHA-256 of `revoke:<nft>` under the device's key and gives 401 when bad. Every refusal leaves the registry unchanged. Success revokes exactly the matched row and answers the address. `revokeDevice` as written never reports "not found", so no 500 arises. |
| Revocation.RevokeEvolves | app/api/revoke-device/route.ts:29 | the handler keeps every row, NFT address and revocation |
| Revocation.RevokeOnce | app/api/revoke-device/route.ts:18-29 | after a successful revocation, any request for that address is refused as already revoked |
| Revocation.RevokeStatus | app/api/revoke-device/route.ts:8-35 | the status is 200, 400, 401 or 404: 400 exactly for a missing field or an already-revoked device, 404 exactly for an unknown NFT address, 401 exactly for a found unrevoked device whose signature fails, 200 exactly when it verifies |
| Gateway.GenerateHash | app/api/iot-getaway.py:40-44 | 64 lowercase hex characters decoding to SHA-256 of the compact sorted serialization. That text is ASCII, so its UTF-8 bytes are its characters. |
| Gateway.HashIgnoresKeyOrder | app/api/iot-getaway.py:40-44 | payloads equal as maps hash alike, whatever their insertion order |
| Gateway.ReorderedMembersHashAlike | app/api/iot-getaway.py:40-44 | an object with rearranged members hashes alike |
| Gateway.RedisKey | app/api/iot-getaway.py:54 | the key is `sensor_data:` followed by the hash |
| Gateway.RedisKeyInjective | app/api/iot-getaway.py:54 | distinct hashes give distinct keys |
| Gateway.ProcessSensorData | app/api/iot-getaway.py:76-109 | non-JSON gives 400 and a falsy payload gives 400, both with nothing stored. A failed save gives 500. Success gives 200 with the payload's hash and the key derived from it, and stores the default-separator sorted text under that key. |
| Gateway.StoredValueIsNotHashedText | app/api/iot-getaway.py:42-56 | the stored value of an object payload is not the text whose hash names its key (a saved object is non-empty, since `{}` is falsy and refused) |
| Gateway.ResubmissionSameEntry | app/api/iot-getaway.py:40-63 | the same data in another key order gets the same key and the same stored value |
| Gateway.ProcessStatus | app/api/iot-getaway.py:76-109 | the status is 200, 400 or 500: 400 exactly when the body is not JSON or the payload is falsy, 500 exactly when a truthy payload's save fails, 200 exactly when it succeeds |
| Lifecycle.RunEvolves | lib/deviceRegistry.ts:63-100 | across any interleaving of telemetry, enrollment (as written) and revocation calls and lock expiries, no row disappears, no NFT address is rewritten and no revocation is undone |
| Lifecycle.RevokedNftNeverAcceptedAgain | app/api/revoke-device/route.ts:29-30 | after a successful revocation, no later telemetry request for that NFT address is accepted, whatever handler calls (enrollment as written) happen in between |
| Lifecycle.RevocationIsFinal | app/api/revoke-device/route.ts:18-30 | after a successful revocation, every later revocation request for that address is refused as already revoked |

## Left out

- Store, ledger and elliptic-curve library exceptions are not modelled. In
  the code they all end in the handlers' `catch` and answer 500.
  - This covers `addOrUpdateDevice` throwing when no row comes back.
  - It covers lookup errors other than "no row".
  - The two best-effort writes of the telemetry handler and the gateway's
    save are modelled as booleans.
- SHA-256, secp256k1 verification, `crypto.randomBytes` and the ledger's
  `getNftOwner` are oracle inputs. The clocks are integer inputs.
- Concurrency is not modelled. Requests are sequential. The non-atomic
  read-then-set of the rate-limit lock, `Promise.allSettled` and TTL timing
  are out; expiry is an event that can only remove locks.
- The TTL values `Telemetry.RateLimitSeconds` (the 60-second lock),
  `Telemetry.DataExpirationSeconds` (the seven-day payload expiry) and
  `Gateway.ExpirationSeconds` (the gateway's seven-day expiry) are recorded
  as constants only. Time-based expiry is not modelled, so no member uses
  them.
- JSON floating-point numbers are not modelled, so neither is Python's float
  formatting. Nor are NaN or non-integral timestamps. The value model has
  integers only.
- Telemetry.Ingest: the signed text is exact only for integers within
  ±2^53. The TypeScript handler parses numbers as IEEE doubles, so
  `json-stable-stringify` prints a wider integer rounded to its shortest
  double form, or in exponent form from 1e21 on (`2^60` prints as
  `1152921504606847000`). The model prints every integer in full. For a
  payload with such an integer, the model's signed text and digest are not
  the code's. Python's integers are exact, so the gateway is unaffected.
- A request body that is not JSON, or is JSON `null`, makes `req.json()` or
  the destructuring throw in all three TypeScript handlers. Each then
  answers 500 from its `catch`. The model starts from the destructured
  fields, so this path is not modelled.
- Key order:
  - `json-stable-stringify` sorts keys by UTF-16 code units; the model sorts
    by code point, which agrees on the Basic Multilingual Plane.
  - Lone surrogates have no counterpart in Dafny's `char`.
- Json.Serialize: duplicate object keys are not collapsed. `JSON.parse` and
  `json.loads` keep only the last value of a repeated key, and
  `Json.Lookup` follows that rule on any member list. The serializer,
  though, prints every member it is given. So a payload with a repeated key
  serializes differently from the code, and the canonicity lemmas require
  unique keys.
- Json.Unescape reads only the lowercase hex escapes the serializers write;
  uppercase `\uXXXX` digits, which a full JSON reader accepts, are
  refused. It is the partner of the escaping, not a model of a parser in
  the code.
- The AI plausibility analysis is not modelled. It is a network call
  commented out of the flow.
- Excluded: the UI views, fetch wrappers, the demo client, mock data, the
  proof lookup route and the Solana service.
- No Merkle tree is built anywhere in the code, so none is modelled.
- Request fields of other JSON types are not modelled in any handler.
  Addresses, keys and challenges are strings, and a signature is either
  absent or an `{r, s}` object. A falsy or non-object `signature` value is
  not modelled.
- Gateway.ProcessSensorData: the generic `except` that answers 500 for an
  unexpected exception while hashing is not modelled. It is unreachable for
  the integer-only value model.

## Findings

| source | as written | input that shows it | evidently intended | confidence | as-written member | corrected member |
|---|---|---|---|---|---|---|
| app/api/register-device/route.ts:45-48 | phase 2 upserts the client's `challenge` and then compares the returned row's challenge with it, which always agrees, so "Invalid challenge" can never be answered and any challenge the key's holder signs enrolls the device | empty registry, `{publicKey: "04ab", challenge: "chosen", signature}` with a signature the verifier accepts: answered an NFT address although no challenge was ever issued | compare the client's challenge with the one phase 1 stored on the key's row, before writing anything | high (not executed) | Enrollment.UnissuedChallengeWitness | Enrollment.Respond |
| app/api/register-device/route.ts:64-67 | the final upsert passes `challenge: undefined`. `JSON.stringify` omits properties whose value is `undefined`, so the request body the store receives names no `challenge` column, and the upsert leaves the challenge in place | any successful phase 2 request: afterwards the key's row still holds the challenge (the ensures of `Enrollment.RespondAsWritten`) | write `challenge: null` so the challenge is cleared on success | medium (not executed) | Enrollment.RespondAsWritten | Enrollment.Respond |
| lib/deviceRegistry.ts:87-100 | the update is issued without asking for a count, so `count` is null and `count === 0` never holds: revoking an address no row carries reports success | `revokeDevice("NFT_unknown")` on an empty table: no error | request an exact count so "not found" is raised when nothing matched | medium (not executed) | Registry.RevokeUnknownNftWitness | Registry.RevokeDevice |
