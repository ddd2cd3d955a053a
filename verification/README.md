# dsa-middleware-bb in Dafny

A model of the decision logic of the `dsa-middleware-bb` Express agent, with
proofs of its properties. The model covers:

- **`maskSensitive`**: the suffix masking of `src/utils/masking.ts`. The
  global regular-expression replace `.(?=.{4})` is modelled exactly,
  including the four ECMAScript line terminators that `.` does not match.
- **The telemetry report** of `src/utils/reportService.ts`. This is
  `addSync`, `addRuleResult`, `addFileCount` and `clearReport` over an
  immutable `OperationReport`. It includes the first-match merge that
  `Array.prototype.find` gives, and the one-record-per-key invariant. Each
  mutator ends with the in-memory part of `saveReport`, which fills an empty
  agent id and restamps the report.
- **`src/api/authenticate.ts`**:
  - `getRawFileName`;
  - `resolveLogFile`, with the clock as a parameter;
  - the reply-to-outcome logic of `authSync`;
  - the interval state of `scheduleReAuth`. This is a set of live timers
    with the two module-level handles. A failed checked tick replaces its
    timer with a bare retry interval.
- **`sendReport`**: field filling and clear-on-success.
- **`registerUserWithAgentAsync`**: the success decision and its effect on
  `isRegistered`.
- **The content-type classifier** of the patched `res.send` in
  `src/agent.ts`, and the fact that the body is forwarded unchanged.
- **`src/utils/cryptoService.ts`**:
  - `generateRandomKey`, with the random bytes as an input;
  - the empty-input and IV-framing behaviour of `encrypt` and `decrypt`.
    AES, SHA-256, base64 and UTF-8 are opaque functions.
- **`SystemIdentityService`**:
  - platform naming;
  - the MAC, IP and container-id filters;
  - the machine-id and persisted-id readers;
  - the precedence of stable sources;
  - the persisted-or-hashed device id.

  Operating-system reads are an input `HostEnv`.

The backend's answer to a request is an input `PostOutcome`. It either
returned a reply, returned nothing, or threw an error with an optional
message. The process-wide stores are one explicit `AppState` record, and
each asynchronous operation returns its boolean result together with the new
state.

The modules follow the source files:

| module | file |
|---|---|
| `Wrappers` | `Option` and `Result` |
| `JsText` | JavaScript string semantics: `trim`, `includes`, `lastIndexOf`, `split`/`join`, `find` |
| `Masking` | `src/utils/masking.ts` |
| `ReportService` | `src/utils/reportService.ts` |
| `Store` | the stores and reply shapes |
| `Authenticate` | `src/api/authenticate.ts` |
| `SendReport` | `src/api/sendReport.ts` |
| `Registration` | `src/api/regUserWithAgent.ts` |
| `ResponseHook` | `src/agent.ts` |
| `CryptoService` | `src/utils/cryptoService.ts` |
| `SystemIdentity` | `src/utils/SystemIdentityService.ts` |

Behaviour of the code that the model keeps as written:

- `authSync` never consults `resultCode`. It succeeds exactly when
  `resultData.configurations` is present.
- `addFileCount` strips one leading dot from the file type and does no case
  folding.
- After a failed tick, the fallback intervals (5 minutes and 1 minute) call
  `authSync` and `sendReport` directly. A later success does not restore the
  normal interval.
- `sendReport` fills `accountId`, `platform`, `deviceId` and `type` on the
  shared report object before posting. The filled fields therefore remain
  even when the post fails.

## Model

| member | source | states |
|---|---|---|
| Masking.MaskSensitive | src/utils/masking.ts:1-4 | Length is preserved, empty input comes back unchanged, and each character becomes `*` exactly when it and the four after it are not line terminators. |
| Masking.ShortUnchanged | src/utils/masking.ts:3 | A string of at most four characters is returned unchanged. |
| Masking.SingleLineShape | src/utils/masking.ts:3 | On a line-terminator-free string of length n > 4, the result is n−4 stars followed by the original last four characters. |
| Masking.WhatSurvives | src/utils/masking.ts:3 | Line terminators and the last four characters are never masked, and a changed character is always `*`. |
| Masking.KeptIffNoMatch | src/utils/masking.ts:3 | A non-star character is kept if and only if it or one of the next four characters is a line terminator, or fewer than four characters follow it. |
| Masking.Idempotent | src/utils/masking.ts:3 | Masking an already masked string changes nothing. |
| JsText.Trim | src/utils/SystemIdentityService.ts:113 | `trim()` returns the infix of the input that remains after removing only whitespace from both ends, and the result neither starts nor ends with whitespace. |
| JsText.TrimKeeps | src/utils/SystemIdentityService.ts:142 | A string without whitespace at either end is its own trim. |
| JsText.TrimIdempotent | src/utils/SystemIdentityService.ts:142 | Trimming twice removes nothing more. |
| JsText.FindIndex | src/utils/reportService.ts:73 | `find` selects the first element that satisfies the predicate, and there is none if and only if no element does. |
| JsText.LastIndexOf | src/api/authenticate.ts:23 | `lastIndexOf` gives the position of the last occurrence, and there is none if and only if the character is absent. |
| JsText.Split | src/api/authenticate.ts:26 | `split` gives at least one separator-free piece, and joining the pieces gives back the input. |
| JsText.JoinExtendLast | src/api/authenticate.ts:30-31 | Appending a suffix to the last piece and then joining equals joining and then appending the suffix. |
| ReportService.Saved | src/utils/reportService.ts:34-45 | The save fills an empty `agentId` from the fallback `agentStore.agent?.agentId ?? configStore.agentId`. With an agent id it stamps `reportOn` with the new time. Without one it gives up and the report is unchanged. The collections and the other identity fields are never touched. |
| ReportService.SavedKeepsAgentId | src/utils/reportService.ts:35-45 | Once a save has left an agent id, every later save keeps that id, whatever its fallback, and only restamps `reportOn`. |
| ReportService.AddSync | src/utils/reportService.ts:61-68 | Exactly one entry `(now, isSuccess, message)` is appended at the end of `sync`. `rules`, `files`, `type`, `platform`, `accountId` and `deviceId` are unchanged. The closing save fills an empty `agentId` and restamps `reportOn` when there is an agent id. |
| ReportService.AddRuleResult | src/utils/reportService.ts:71-86 | A new name is appended with `lastProcessed` stamped. An existing name merges into its first record: counts add, time is stamped, the error is overwritten only by a non-empty incoming one, and every other record and field is unchanged. The closing save acts on the header as in `AddSync`. |
| ReportService.CleanType | src/utils/reportService.ts:89 | At most one leading dot is removed, and nothing else changes. |
| ReportService.AddFileCount | src/utils/reportService.ts:88-103 | Keyed by the dot-stripped type: an existing key's first record gets `count` added and a new time, otherwise one record with `count` is appended. `sync` and `rules` are unchanged. The closing save acts on the header as in `AddSync`. |
| ReportService.ClearReport | src/utils/reportService.ts:109-116 | `sync`, `rules` and `files` are emptied and `reportOn` is restamped. `accountId`, `platform`, `deviceId` and `type` are unchanged, and the closing save fills an empty `agentId` from the fallback. |
| ReportService.RuleCountAfterAdd | src/utils/reportService.ts:73-82 | Read through the first-record view, the count of the added name grows by the incoming `matchCount`, and every other name's count is unchanged. |
| ReportService.FileCountAfterAdd | src/utils/reportService.ts:89-101 | Read the same way, the cleaned type's count grows by `count`, and every other type's count is unchanged. |
| ReportService.RuleCountUpdate | src/utils/reportService.ts:76 | Updating the first record of a name in place changes that name's visible count only. |
| ReportService.RuleCountAppend | src/utils/reportService.ts:81 | Appending a record for an absent name adds its count to that name only. |
| ReportService.FileCountUpdate | src/utils/reportService.ts:93 | Updating the first record of a type in place changes that type's visible count only. |
| ReportService.FileCountAppend | src/utils/reportService.ts:100 | Appending a record for an absent type adds its count to that type only. |
| ReportService.DistinctKeysPreserved | src/utils/reportService.ts:61-116 | If rule names and file types are distinct before any of the four operations, they are distinct afterwards. |
| ReportService.CountsNeverDecrease | src/utils/reportService.ts:71-103 | With non-negative increments no key disappears and no count goes down. |
| ReportService.SameRuleTwice | src/utils/reportService.ts:73-82 | Reporting a new rule twice leaves one record for it, holding twice the count. |
| Authenticate.RawFileName | src/api/authenticate.ts:22-32 | Without a dot the result is the name plus `_raw`. Otherwise it is the text before the last dot, then `_raw`, then the suffix from the last dot. |
| Authenticate.RawFileNameKeepsExtension | src/api/authenticate.ts:22-32 | The result is four characters longer and ends with the original extension. |
| Authenticate.Prefix | src/api/authenticate.ts:18 | `slice(0, n)` is a prefix of length n when n fits, and the whole string when n is past its end. |
| Authenticate.ResolveLogFile | src/api/authenticate.ts:16-20 | Replacing placeholders never lengthens the pattern. |
| Authenticate.NoClosingBraceUnchanged | src/api/authenticate.ts:17 | Without a `}` there is no placeholder, and the pattern is returned unchanged. |
| Authenticate.PlaceholderAtStart | src/api/authenticate.ts:17-19 | A leading non-empty `{content}` becomes the timestamp prefix of `content`'s length, and the rest is resolved in turn. |
| Authenticate.PlaceholderReplaced | src/api/authenticate.ts:17-19 | Brace-free literal text is kept, and the first non-empty placeholder after it becomes the timestamp prefix of its length. |
| Authenticate.EmptyBracesKept | src/api/authenticate.ts:17 | `{}` is not a placeholder and is kept literally. |
| Authenticate.AuthSync | src/api/authenticate.ts:37-79 | Succeeds if and only if the reply carries configurations, and appends exactly one sync entry with that flag. The entry's save falls back on the agent record from before the call. On success: message "", the agent becomes `resultData`, and the frequencies take `??` defaults 2 and 1. On failure: the agent and frequencies are unchanged, and the message is `resultMessage ?? "Unknown"`, "Unknown", or `message ?? "Unexpected error"` by outcome. |
| Authenticate.AuthSyncAll | src/api/authenticate.ts:37-79 | A run of attempts appends one entry per attempt, in order and with its success flag. The agent is unchanged unless some attempt succeeds, and a successful last attempt decides it. |
| Authenticate.ClearInterval | src/api/authenticate.ts:87-88 | Clearing a handle removes exactly the timer with that handle, and a missing handle removes nothing. |
| Authenticate.MinutesToMs | src/api/authenticate.ts:98 | A minute count becomes a whole multiple of 60000 ms that converts back to the same minute count. A positive count gives at least one minute, and a count of 0 or less gives a non-positive delay. |
| Authenticate.SetInterval | src/api/authenticate.ts:91-98 | The new timer is appended under the next handle, which differs from every live timer's handle in a well-formed scheduler. Only the handle of its own kind moves to it, and the next handle advances. |
| Authenticate.ReplaceKeepsWf | src/api/authenticate.ts:95-96 | Clearing a kind's current interval and setting a new one keeps handles fresh and distinct, with each live timer the one its kind's handle names. |
| Authenticate.ScheduleReAuth | src/api/authenticate.ts:84-112 | Afterwards exactly two timers are live: a checked re-auth one every syncMinutes×60000 ms and a checked report one every reportMinutes×60000 ms. The scheduler invariant is kept. |
| Authenticate.Tick | src/api/authenticate.ts:91-109 | A failed checked tick removes its timer and adds a bare one: 300000 ms for re-auth, 60000 ms for the report. Afterwards the live timers are exactly that bare timer plus the other kind's timers, and the other kind's handle is unchanged. A success, or a bare timer's tick, changes nothing. |
| Authenticate.AtMostOnePerKind | src/api/authenticate.ts:84-112 | Under the scheduler invariant, at most one interval of each kind is live. |
| SendReport.FillMissing | src/api/sendReport.ts:17-27 | An empty `accountId` is filled from the agent (or ""), and a non-empty one is kept. A falsy `platform` is filled from the agent (or ""). A falsy `deviceId` is filled from the device. `type` becomes "middleware_agent", and everything else is unchanged. |
| SendReport.FillMissingIdempotent | src/api/sendReport.ts:17-27 | Filling a second time changes nothing. |
| SendReport.SendReport | src/api/sendReport.ts:12-44 | The report always leaves with the fields that `FillMissing` gives, whatever the reply. Returns true if and only if the reply has `resultCode` 0, and only then clears the report; that clear's save fills an empty `agentId`. Otherwise `sync`, `rules`, `files`, `agentId` and `reportOn` stay as they were. The rest of the state is unchanged. |
| SendReport.FailedThenSucceeded | src/api/sendReport.ts:29-43 | A failed flush keeps the collected rules, and a following successful flush clears them. |
| Registration.Request | src/api/regUserWithAgent.ts:14-21 | The request carries the configured agent id, and the device id and IP. Its key is the 14 characters that `generateRandomKey` spells from the given random bytes, the i-th being `CHARS[byte_i % 71]`. |
| Registration.RegisterUserWithAgent | src/api/regUserWithAgent.ts:13-50 | Succeeds if and only if the result code is 0 or `isUserRegistered === true`, and success sets `isRegistered`. Any other reply, no reply, or a thrown error leaves the state unchanged. |
| Registration.AlreadyRegisteredLikeFresh | src/api/regUserWithAgent.ts:32-43 | "Already registered" produces exactly the same result and state as a result code of 0. |
| Registration.RegisteredStaysRegistered | src/api/regUserWithAgent.ts:30-49 | A registered state stays registered whatever the reply. |
| ResponseHook.ContentType | src/agent.ts:31 | A missing header, or a present but empty one, is read as "unknown". Any other header is kept. |
| ResponseHook.FirstFamily | src/agent.ts:35-54 | The table lookup returns the label of the first family with a matching substring, and returns none if and only if no family matches. |
| ResponseHook.DetectedType | src/agent.ts:33-61 | The label is one of the eight, "JSON (guessed)" needs an "unknown" header and an object body, and an `application/json` header always gives JSON. |
| ResponseHook.FamiliesAgree | src/agent.ts:35-54 | Each row of the family table matches exactly when the corresponding test of the chain does. |
| ResponseHook.DetectedTypeIsFirstMatch | src/agent.ts:35-61 | The if-chain equals first-match classification over the ordered family table (JSON, Text, XML, Document, Spreadsheet/CSV, HTML), with the body guess as fallback. |
| ResponseHook.CsvIsSpreadsheet | src/agent.ts:47-52 | `text/csv` is classified as "Spreadsheet/CSV". |
| ResponseHook.MissingHeaderGuessesFromBody | src/agent.ts:55-60 | Without a header only the body's type decides: a string gives Text, an object or null gives "JSON (guessed)", anything else gives "unknown". |
| ResponseHook.PatchedSend | src/agent.ts:29-74 | The body reaches the original `send` unchanged. The label is the classification of the header (or "unknown") and the body. Without a header, a string body is Text and an object body is "JSON (guessed)". |
| CryptoService.KeyChars | src/utils/cryptoService.ts:13 | One character per byte: character i is `CHARS[b_i mod 71]`. |
| CryptoService.GenerateRandomKey | src/utils/cryptoService.ts:9-14 | Fails with "Key length must be greater than 0" if and only if length ≤ 0. Otherwise the key has the requested length, only alphabet characters, and character i is `CHARS[b_i mod 71]`. |
| CryptoService.EveryKeyReachable | src/utils/cryptoService.ts:13 | Every non-empty string over the alphabet is produced by some byte sequence. |
| CryptoService.ModuloBias | src/utils/cryptoService.ts:13 | The first 43 alphabet characters are each hit by 4 byte values and the remaining 28 by 3, so the mapping is not uniform. |
| CryptoService.Frame | src/utils/cryptoService.ts:48 | The framed data is the 16-byte IV followed by the ciphertext. |
| CryptoService.Unframe | src/utils/cryptoService.ts:64-65 | The two `subarray` pieces concatenate back to the data, and the IV part is 16 bytes, or all of the data when it is shorter. |
| CryptoService.UnframeFrame | src/utils/cryptoService.ts:48-65 | Unframing inverts framing. |
| CryptoService.Encrypt | src/utils/cryptoService.ts:37-50 | Empty plaintext is returned as is. Otherwise, when AES succeeds, the result is base64(IV ++ AES(key, IV, UTF-8 text)); when AES throws, its error is the result. |
| CryptoService.Decrypt | src/utils/cryptoService.ts:55-71 | Empty ciphertext is returned as is, and decoded data shorter than an IV fails. Otherwise the first 16 bytes are the IV, the rest is deciphered, and the UTF-8 decoding of the output is returned, or the decipher's error. |
| CryptoService.DeriveKey | src/utils/cryptoService.ts:40-42 | A base64 key string is decoded, and the decoded bytes re-encode to that same string. Any other key string is hashed with SHA-256. |
| CryptoService.EncodedKeyUsedAsBytes | src/utils/cryptoService.ts:76-82 | When decoding inverts encoding, every base64-encoded key passes `isBase64`, and the key bytes it encodes are used directly. |
| CryptoService.DecryptEncrypt | src/utils/cryptoService.ts:37-71 | Given base64, UTF-8 and AES that invert one another, decrypting an encryption gives back the plaintext. |
| SystemIdentity.Platform | src/utils/SystemIdentityService.ts:63-70 | win32→Windows, linux→Linux, darwin→macOS, and every other name→Unknown, each in both directions. |
| SystemIdentity.FirstSatisfying | src/utils/SystemIdentityService.ts:75-84 | The first interface, in key order, that passes the filter; none if and only if no interface passes. |
| SystemIdentity.FirstInterface | src/utils/SystemIdentityService.ts:75-84 | The nested loops over the groups, which skip undefined ones, return exactly the first candidate `FirstSatisfying` names. |
| SystemIdentity.PrimaryMacAddress | src/utils/SystemIdentityService.ts:72-86 | The MAC of the first interface whose MAC is non-empty and not all-zero, with "" if and only if there is none. A failing interface call gives "". |
| SystemIdentity.LocalIPAddress | src/utils/SystemIdentityService.ts:88-102 | The address of the first non-internal IPv4 interface, and "" when there is none. A failing interface call gives "". |
| SystemIdentity.FirstHexRun | src/utils/SystemIdentityService.ts:108-109 | The leftmost run of 64 hexadecimal characters (either case); none if and only if there is none. |
| SystemIdentity.ScanHexRun | src/utils/SystemIdentityService.ts:109 | The left-to-right scan over start positions finds exactly `FirstHexRun`. |
| SystemIdentity.HostnameContainerId | src/utils/SystemIdentityService.ts:112-114 | The trimmed hostname is accepted if and only if it is 12–64 hexadecimal characters. |
| SystemIdentity.DockerContainerId | src/utils/SystemIdentityService.ts:104-118 | A cgroup file with a 64-hex run gives its leftmost run. A missing cgroup file, or one without a run, falls back to a container-like hostname. A failed read gives "". The result is "" or 12–64 hexadecimal characters. |
| SystemIdentity.LinuxMachineId | src/utils/SystemIdentityService.ts:120-132 | Only on Linux. `/etc/machine-id` wins when it is non-empty after trimming. When it is missing or blank, the dbus machine-id file decides. A failed read of the first file gives "". |
| SystemIdentity.TrimmedContent | src/utils/SystemIdentityService.ts:139-146 | A file read gives its trimmed content, and "" when the file is missing or the read fails. `readPersistedId` reads this way, and so does the dbus step of the machine-id search. |
| SystemIdentity.BestStable | src/utils/SystemIdentityService.ts:36-46 | The first non-empty of docker id, machine id, Windows GUID (always "") and MAC, else "gen:" + uuid. The result is never empty. |
| SystemIdentity.UpdateSystemIdentityInfo | src/utils/SystemIdentityService.ts:17-59 | Platform, architecture, MAC, IP and docker id are the selections from the host inputs. A non-empty persisted id is used verbatim and nothing is written. Otherwise the id is hash(platform + "\|" + arch + "\|" + best stable source), and that id is written back. |
| SystemIdentity.IdentityIsStable | src/utils/SystemIdentityService.ts:28-53 | With a hex-digest hash, a second run that finds the first run's id persisted reports the same details and writes nothing, whatever UUID it draws. |

## Left out

- ReportService.Saved: writing the report file, `ensureFolder`,
  `reportService.init` and the report file path are file-system I/O and are
  not modelled. When an empty agent id is filled, the source stamps
  `reportOn` only after awaiting `ensureFolder`. The model applies that stamp
  at once.
- ReportService.AddSync: the entry time and the save's time are two readings
  of the clock in the source. The model uses one time `now` for both, and
  does the same in `AddRuleResult`, `AddFileCount` and `ClearReport`.
- `tryPersistId` and the device-id file path are file-system I/O. The write of
  a new device id is returned as an output.
- `getReport` returns the shared report object. The model passes the report
  explicitly in `AppState` instead.
- The initial report record (src/utils/reportService.ts:10-20) is read from
  the stores at module load. The model starts from any given report.
- The authentication request body (src/api/authenticate.ts:41-53) and
  `HttpRequestService` are HTTP transport. Replies are the input
  `PostOutcome`.
- Console logging is not modelled: the request and response logging of the
  middleware, the debug output and all `console.*` calls. Neither are
  `Object.assign` of the configuration or `next()`.
- `generateAes256Key` and `generateAes256KeyAndIv` only draw random bytes and
  encode them.
- AES-256-CBC, SHA-256, base64 (including `isBase64`) and UTF-8 are opaque
  functions. Errors raised inside Node's cipher appear only as the primitive's
  `Failure`.
- Real timers, asynchronous overlap of callbacks, and Node's clamping of
  interval delays outside 1 to 2^31−1 ms are not modelled.
- ReportService.AddRuleResult: the model stores a copy of the submitted
  rule. The source pushes the caller's own object and later merges mutate it
  in place (src/utils/reportService.ts:76-81). So the caller's
  `lastProcessed` is overwritten, and submitting the same object a third time
  gives four times its count in the source but three times in the model.
- Authenticate.MinutesToMs: frequencies are integers. A fractional
  `syncFrequency` is not modelled.
- A catch block whose thrown value is not an object is not modelled, because
  `err.message` would throw again. Thrown values carry an optional message.
- JavaScript strings are UTF-16 code units. The model uses Dafny characters,
  which agree with code units for text in the Basic Multilingual Plane, and
  it cannot represent lone surrogates.
- Numbers are unbounded integers. Floating-point counts and `NaN` are not
  modelled.
- Authenticate.ResolveLogFile: its own contract states only the length bound.
  The replacement behaviour is stated by the placeholder lemmas, on patterns
  of the shapes they name.
- `getWindowsMachineGuid` always returns "", and it appears only inside
  `BestStable`.
