# Matrix bot for Node-RED: key-export reader and node decision rules

This project models, in Dafny, the two parts of the `matrixbot` Node-RED
package that hold logic of their own:

- `matrixbot/megolm-utils.js`, the reader for megolm session-key exports.
  - `unpackMegolmKeyFile` scans the ASCII armour line by line. It looks for a
    newline-terminated `-----BEGIN MEGOLM SESSION DATA-----` line, then for a
    `-----END MEGOLM SESSION DATA-----` line, and base64-decodes the text
    between them.
  - `decryptMegolmKeyFile` checks the length and the version byte and slices
    the body into salt, iv, iteration count, ciphertext and HMAC. It then
    derives keys, verifies the HMAC, and only after that decrypts with
    AES-CTR.
- `matrixbot/99-matrixbot.js`, the Node-RED nodes. The model keeps the pure
  decisions they take:
  - which timeline events the receiver and command nodes pass on;
  - when a message is a command, and what text follows it;
  - where and how the sender node delivers a payload;
  - when the configuration node announces a change of connection state;
  - how the E2EE flag and the status text are derived.

The model has five modules:

- `Results`: `Option`, `Result` and `byte`.
- `JsString`: the JavaScript string built-ins the code relies on. These are
  `trim`, `indexOf`, `split` on one character and `replace` with a string
  pattern. Each is specified by its ECMAScript meaning.
- `Armor`: the line scanner.
  - `ScanHeader` and `ScanTrailer` are the two loops, position for position.
  - Lemmas characterise them over a declarative reading of the text as lines.
  - Armour packed the way the exporter writes it is read back to exactly its
    body lines.
- `KeyExport`: the binary layout and the decryption pipeline.
  - The primitives are function-valued fields of a `Crypto` record. These are
    PBKDF2 key derivation, HMAC verification, AES-CTR decryption and UTF-8
    decoding.
  - Each run returns the sequence of primitive calls it made, so that the
    order of calls can be stated.
- `BotRules`: the node decisions.

The primitives above are parameters of the model: it applies them but leaves
them undefined. Input and output and the Matrix SDK are not modelled.

## Model

| member | source | states |
|---|---|---|
| JsString.Trim | matrixbot/megolm-utils.js:31 | `trim()` leaves a string with no white space at either end, and it is empty exactly when the input is all white space |
| JsString.TrimOfPadded | matrixbot/megolm-utils.js:31 | trimming strips any white-space padding from both ends of a string that does not itself begin or end with white space |
| JsString.TrimSplits | matrixbot/megolm-utils.js:31 | every string is its trim padded with white space on both sides |
| JsString.IndexOfChar | matrixbot/megolm-utils.js:27 | `indexOf('\n', from)` is the first position at or after `from` holding a newline, or -1 exactly when there is none |
| JsString.IndexOfFrom | matrixbot/99-matrixbot.js:380 | `indexOf` for a string pattern is the first occurrence at or after `from`, or -1 exactly when there is none |
| JsString.ReplaceFirst | matrixbot/99-matrixbot.js:380 | `replace` with a string pattern replaces only the first occurrence, and returns a string without one unchanged |
| JsString.Split | matrixbot/99-matrixbot.js:376 | `split(" ")` gives at least one token, no token holds the separator, and joining the tokens gives the input back |
| JsString.SplitJoin | matrixbot/99-matrixbot.js:376 | splitting undoes joining for tokens that hold no separator |
| Armor.LineEndIsIndexOf | matrixbot/megolm-utils.js:27-31 | the end of the line the scanner slices is the first newline from the line start, or the end of the text when `indexOf` gives -1 |
| Armor.ScanHeader | matrixbot/megolm-utils.js:24-39 | the header loop either reports "Header line not found" or stops at a line start whose line is terminated by a newline |
| Armor.ScanHeaderMeaning | matrixbot/megolm-utils.js:24-39 | the header loop fails exactly when no newline-terminated line passes the test; otherwise it stops at the first one |
| Armor.ScanTrailer | matrixbot/megolm-utils.js:44-58 | the trailer loop either reports "Trailer line not found" or stops at a line start within the text |
| Armor.ScanTrailerMeaning | matrixbot/megolm-utils.js:44-58 | the trailer loop fails exactly when no line, including an unterminated last line, passes the test; otherwise it stops at the first one |
| Armor.LocateBetween | matrixbot/megolm-utils.js:24-60 | a located region satisfies 0 < dataStart <= dataEnd <= length, and begins just after a newline |
| Armor.LocateBetweenMeaning | matrixbot/megolm-utils.js:24-60 | a missing header exactly when no terminated line passes the header test; a missing trailer exactly when no line after the first header passes the trailer test; otherwise the region runs from just past the first header's newline to the start of the first trailer line after it |
| Armor.Locate | matrixbot/megolm-utils.js:21-60 | the scanner with the trimmed-marker tests keeps the region bounds |
| Armor.LocateMeaning | matrixbot/megolm-utils.js:24-60 | the characterisation above for lines that trim to the two markers |
| Armor.Unpack | matrixbot/megolm-utils.js:21-62 | unpacking fails exactly when locating fails, with the same error, and otherwise base64-decodes the located text |
| Armor.UnpackAsWritten | matrixbot/megolm-utils.js:62 | as written, the decoded bytes are turned back into a string with `toString('ascii')` |
| Armor.PackLocate | matrixbot/megolm-utils.js:41-60 | armour made of the header line, body lines that are not trailers and the trailer line is located exactly at the body lines |
| Armor.LocateBetweenFramed | matrixbot/megolm-utils.js:41-60 | the same for any header and trailer tests: the region covers exactly the framed lines |
| Armor.HeaderNeedsNewline | matrixbot/megolm-utils.js:27-30 | a text without a newline never has its header found, even when its only line is the header |
| Armor.TrailerMayEndText | matrixbot/megolm-utils.js:44-54 | a trailer on the last line is accepted without a newline, and a trailer right after the header gives an empty region |
| Armor.MarkersAlone | matrixbot/megolm-utils.js:10-11 | header then trailer with no body locates an empty region at 36, and the header line alone is "Header line not found" |
| KeyExport.ToInt32 | matrixbot/megolm-utils.js:95 | the 32-bit operators yield a signed 32-bit value congruent to the input modulo 2^32 |
| KeyExport.Iterations | matrixbot/megolm-utils.js:95 | the iteration count is a signed 32-bit integer, and it is negative exactly when the top bit of `body[33]` is set |
| KeyExport.IterationsOfEncode | matrixbot/megolm-utils.js:95 | reading the count back from its big-endian encoding gives the count |
| KeyExport.EncodeOfIterations | matrixbot/megolm-utils.js:95 | encoding the count that was read gives the four bytes back |
| KeyExport.ParseBody | matrixbot/megolm-utils.js:75-100 | the gates come in the source's order: empty gives too short, then a version other than 1, then under 69 bytes gives too short; a parsed body is partitioned exactly: `toVerify ++ hmac == body`, `[body[0]] ++ salt ++ iv ++ body[33..37) ++ ciphertext == toVerify`, and the ciphertext holds n - 69 bytes |
| KeyExport.ParseAssemble | matrixbot/megolm-utils.js:87-100 | a body assembled from its fields parses back into those fields, with the HMAC covering everything before it |
| KeyExport.AssembleParse | matrixbot/megolm-utils.js:87-100 | every body that parses is the assembly of its parsed fields |
| KeyExport.DecryptBody | matrixbot/megolm-utils.js:99-133 | no primitive is called when a gate fails; keys are derived from salt and count; verification uses the HMAC key, the stored tag and every byte before it; decryption uses the AES key, the iv and the ciphertext, and comes only straight after a verification that passed; each error is reported exactly when its primitive fails; the run succeeds exactly when all three primitives do, returning the UTF-8 decoding of the plaintext; and each outcome fixes the trace: derivation alone, derivation then verification, or all three calls |
| KeyExport.DecryptKeyFile | matrixbot/megolm-utils.js:72-133 | an armour error stops the pipeline before any primitive is called; otherwise the body is decrypted |
| KeyExport.DecryptAsWritten | matrixbot/megolm-utils.js:73-85 | as written, nothing ever decrypts and no primitive is called; every body that unpacks to a non-empty string is an unsupported version |
| KeyExport.CheckStringBody | matrixbot/megolm-utils.js:76-93 | on the string body, an empty body is too short and every other body is an unsupported version, because a one-character string is never strictly equal to 1 |
| KeyExport.VersionCheckDiffers | matrixbot/megolm-utils.js:81-85 | on a well-formed version-1 body, the byte model reaches key derivation with the body's salt and count, while the string model, handed one character per byte, reports an unsupported version |
| BotRules.Screen | matrixbot/99-matrixbot.js:294-305 | an event is kept exactly when it is live, an `m.room.message`, from a non-empty sender other than the bot, and carries `unsigned` with an age not above 1000; otherwise the verdict names the first test that fails |
| BotRules.Receive | matrixbot/99-matrixbot.js:293-316 | the receiver node sends exactly for kept events, with their body, sender and room |
| BotRules.CommandMatchesMeaning | matrixbot/99-matrixbot.js:376-378 | the first space-separated token equals the command exactly when the command has no space and the message is the command alone or the command followed by a space |
| BotRules.CommandOpensMessage | matrixbot/99-matrixbot.js:380 | removing the first occurrence of a matched command leaves the message after its first characters, as many as the command has |
| BotRules.Command | matrixbot/99-matrixbot.js:355-388 | the command node sends exactly for kept events whose first token is the command, as `[msg, null]`, with the text after the command and the unchanged message |
| BotRules.DestinationRoom | matrixbot/99-matrixbot.js:225-233 | the room is `msg.roomId` when it is truthy, else the configured room when that is truthy, else none |
| BotRules.Dispatch | matrixbot/99-matrixbot.js:216-256 | the client check, then the empty-payload check, then the room check; a payload whose `type` is `image` is sent as an image and any other as its `toString()` text, to the destination room |
| BotRules.DispatchDelivers | matrixbot/99-matrixbot.js:222-253 | every input with a client, a truthy payload and a truthy room is delivered, to its own room when it names one |
| BotRules.E2ee | matrixbot/99-matrixbot.js:33 | `keys && passphrase` is truthy exactly when both are |
| BotRules.StatusAfterConnect | matrixbot/99-matrixbot.js:166-209 | connecting announces the connection unless the node was already connected, and the status the nodes then show is "connected (E2EE)" exactly when both the keys and the passphrase are set, "connected" otherwise |
| BotRules.UpdateConnectionState | matrixbot/99-matrixbot.js:166-175 | the new state is stored, and a signal announcing it is emitted exactly when it differs from the stored one |
| BotRules.UpdateIdempotent | matrixbot/99-matrixbot.js:166-175 | a repeated update stores the same state and emits nothing |
| BotRules.UpdateAll | matrixbot/99-matrixbot.js:166-175 | over any series of updates, the signals alternate between connected and disconnected; the first differs from the initial state and the last names the final one; every connected signal carries the node's e2ee value |
| BotRules.UpdateAllAnnouncesChanges | matrixbot/99-matrixbot.js:166-175 | over any series of updates there is exactly one signal per update that changes the state; with the alternation and the final state this fixes which signals are connected and which disconnected, and `UpdateAll` gives every connected signal the node's e2ee value |

## Left out

- The Matrix client is not modelled. This covers creating it, login, sync, `startClient`, joining rooms and auto-joining on invite (matrixbot/99-matrixbot.js:43-125, 162). These are network I/O and event wiring.
- End-to-end encryption setup is not modelled: crypto initialisation, key-backup restore, the cross-signing callbacks, the `LocalStorage` stores and the MD5-derived store name (matrixbot/99-matrixbot.js:39-57, 129-160). These are calls into foreign libraries and persistence.
- Node-RED registration, `node.status`, `log`, `warn` and the `close` handlers are not modelled. The decision each handler takes is modelled as its return value.
- The internals of PBKDF2, HMAC-SHA-256, AES-CTR (including the `length: 64` counter width), base64, `toString('ascii')` and `TextDecoder` are uninterpreted. The base64 decoder never fails, because Node's decoder skips characters outside the alphabet.
- `deriveKeys`, `friendlyError`, `_t`, `brand` and `cryptoFailMsg` are not defined in `megolm-utils.js`. Key derivation is a parameter that may fail (`DeriveFailed`). The error messages are kept only as error kinds.
- The pipeline is modelled as a sequential computation. The `await`s and promises are not modelled.
- `decryptMegolmKeyFile` is exported but never called: its import is commented out (matrixbot/99-matrixbot.js:9).
- JavaScript strings are sequences of UTF-16 code units, while a Dafny `char` is a Unicode scalar value. The markers and the white space `trim` removes all lie in the Basic Multilingual Plane, so the scanner is unaffected.
- Armor.Unpack: `data` is modelled as a string. The source documents it as an `ArrayBuffer` (matrixbot/megolm-utils.js:18) but uses it as is (line 22), without the `TextDecoder` step of the code it derives from. On an `ArrayBuffer`, `fileStr.indexOf` (line 27) throws a `TypeError`; on a Node `Buffer`, `slice` returns a `Buffer` and `.trim()` (line 31) throws one. Those thrown errors are not modelled.
- KeyExport.Iterations: the bitwise `|` of the four shifted bytes is modelled as their sum, reduced to a signed 32-bit value. The two agree because the shifted bytes occupy disjoint bits.
- BotRules.Dispatch: `payload.type == 'image'` uses loose equality. Non-string `type` values that coerce to `"image"`, such as `['image']`, are not modelled. The payload's truthiness and `toString()` are taken as given.
- BotRules.Screen: `age` is modelled as an integer. A non-numeric `age` and non-string message bodies are not modelled; on those, `split` would throw.

## Findings

| source | as written | input that shows it | evidently intended | confidence | as-written member | corrected member |
|---|---|---|---|---|---|---|
| matrixbot/megolm-utils.js:62 | `unpackMegolmKeyFile` returns `toString('ascii')` of the decoded bytes, so `body[0] !== 1` (lines 81-82) compares a one-character string with a number and is always true | any armoured export whose body decodes to a non-empty string, such as a well-formed version-1 export: it takes the unsupported-version branch (lines 81-85) and is never decrypted | return the decoded bytes, so that the first byte is compared with 1 and a version-1 body of at least 69 bytes reaches key derivation | high; not executed | KeyExport.DecryptAsWritten | KeyExport.DecryptKeyFile |
