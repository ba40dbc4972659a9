# Momentum: a Dafny model of the sync, store and scheduling core

Momentum is a habit-tracking progressive web app. Users keep a list of
activities, tick them off per day, write notes, set reminders and choose the
weekdays an activity applies to. Devices share data in three ways:
- encrypted snapshots uploaded to a GitHub Gist and fetched back with a short sync code;
- local backup files;
- a merge engine that reconciles two snapshots.

This project models the logic under the React UI as immutable datatypes and
pure functions. It proves what those functions promise:
- merge rules per data domain, and a dry-run counter that predicts the merge;
- sync codes: how they are generated, validated and normalised; the code→gist
  registry with 48-hour expiry; the capped sync history;
- the request rate limiter in front of the Gist API;
- the activity store: add, rename, delete with renumbering, move up/down,
  drag reorder, completion toggle, notes, statistics, plus the older store it grew from;
- weekday scheduling and the weekday picker's state machine;
- reminders: CRUD, `H:MM` validation, firing, the upcoming list, status and the time phrase;
- backup bookkeeping: capped history, auto-backup schedule, file validation,
  export filtering, restore.

The clock, random bytes, network replies, the cipher and the digest are
parameters. localStorage is an in-memory value passed in and returned.

Modules follow the source files:

| module | file | models |
|---|---|---|
| `Common`, `Dict`, `Sorting` | common.dfy, dict.dfy, sorting.dfy | Option/Result, JS truthiness, insertion-ordered dictionaries (a JS object or `Map`), the stable sort |
| `Model` | model.dfy | activities, day records, reminders, snapshots, strategies |
| `Merge` | merge.dfy | src/utils/mergeData.js |
| `Encryption` | encryption.dfy | src/utils/encryption.js |
| `Gist` | gist.dfy | src/services/gistService.js |
| `Storage` | storage.dfy | exportData / importData of src/utils/storage.js |
| `Sync` | sync.dfy | src/services/syncService.js |
| `Store` | store.dfy | src/store/useStore.js |
| `LegacyStore` | legacy_store.dfy | activity-tracker/src/store/useStore.js |
| `DayUtils` | day_utils.dfy | src/utils/dayUtils.js |
| `DaySelector` | day_selector.dfy | the two handlers and the prop sync of src/components/DaySelector.jsx |
| `Reminders` | reminders.dfy | src/utils/reminders.js |
| `Backup` | backup.dfy | src/services/backupService.js |

Modelling conventions:
- A value written `x || d` in the source is an `Option`. `Some(0)` counts as
  falsy, like a missing value.
- A JavaScript object whose key order is observable (the date-keyed `dailyData`,
  the `Map`s of the merge) is a `Dict`: a sequence of distinct-key pairs in
  insertion order.
- `Array.prototype.sort` with a numeric comparator is a stable insertion sort by an integer key.
- A value that is JSON text in one place and an object in another is an
  `Exported`: `AsText` or `AsObject`. Spreading text into an object gives one
  member per character (`Snapshot.indexChars`), and assigning a member on
  text throws, as in strict-mode JavaScript.
- `Number(...)` on a time field is `Some(n)` for a run of digits (the empty
  string is 0) and `None` where JavaScript gives `NaN`.

## Model

| member | source | states |
|---|---|---|
| Merge.MergeActivities | src/utils/mergeData.js:13-52 | `replace` gives the remote list and `local` the local one; a merge is sorted by `order \|\| 0` and holds exactly the entries of the id-keyed map |
| Merge.AddRemoteKeyed | src/utils/mergeData.js:31-46 | the remote pass files every activity under its own id |
| Merge.GetAddRemoteActivities | src/utils/mergeData.js:31-46 | read back one id at a time, the remote pass holds the remote copy when `remote.lastModified \|\| now` is at least `existing.lastModified \|\| 0`, and otherwise what was there |
| Merge.MergeActivitiesMember | src/utils/mergeData.js:23-51 | an activity is in the merged list exactly when it is the winner for its id: the remote copy if its timestamp is ≥ the local one, otherwise the last local one |
| Merge.MergeActivitiesIds | src/utils/mergeData.js:23-51 | in merge mode the merged list's ids are exactly the union of the local and remote ids |
| Merge.MergeActivitiesUnique | src/utils/mergeData.js:23-51 | no id occurs twice in a merged list |
| Merge.MergeCompletedActivities | src/utils/mergeData.js:123-126 | the completed ids of both sides, each exactly once, and nothing else |
| Merge.MergeDayData | src/utils/mergeData.js:95-115 | `completed` is the union; every other member comes from remote exactly when its `lastModified` is strictly newer; ties go to local |
| Merge.DedupKeepsPrefix | src/utils/mergeData.js:123-126 | the union keeps a duplicate-free local list in front, in its own order |
| Merge.MergeDayIdempotent | src/utils/mergeData.js:95-126 | merging a duplicate-free day with itself changes nothing |
| Merge.MergeDailyData | src/utils/mergeData.js:61-87 | `replace`/`local` give one side; a merge keeps distinct date keys |
| Merge.MergeDailyDataGet | src/utils/mergeData.js:71-86 | a merge's dates are the union of both sides; a local-only day stays, a remote-only day is copied, and a shared day is their day merge |
| Merge.MergeSettings | src/utils/mergeData.js:135-154 | a merge has both sides' keys; every remote key overrides and every other local key stays |
| Merge.MergeSettingsIdempotent | src/utils/mergeData.js:135-154 | merging the same remote settings a second time changes nothing |
| Merge.MergeReminders | src/utils/mergeData.js:163-191 | a missing list counts as empty; `replace` and `local` give one side unchanged; a merge holds a reminder exactly when it is the winner for its `time-label` key (the last remote reminder with that key, else the last local one), and no two merged reminders share a key |
| Merge.MergedReminders | src/utils/mergeData.js:176-190 | the values of the `time-label` map are exactly the winners (the last remote reminder with the key, else the last local one), one per key |
| Merge.MergeAllData | src/utils/mergeData.js:200-235 | `replace` gives the remote snapshot; `local` and `skip` give the local one; otherwise each domain merges with a missing part counting as empty, the remote export date and version win when non-empty, and both sides' metadata is dropped |
| Merge.TallyOf | src/utils/mergeData.js:243-312 | the three counters partition the classified items and count each class |
| Merge.CalculateMergeChanges | src/utils/mergeData.js:243-312 | per domain, added + updated + unchanged is the number of remote items; reminders are never counted as updated |
| Merge.DryRunPredictsActivities | src/utils/mergeData.js:262-279 | with duplicate-free ids on both sides, the merged activity list is longer than the local one by exactly the dry run's `added` |
| Merge.DryRunPredictsDays | src/utils/mergeData.js:281-296 | the merged day records outnumber the local ones by exactly the dry run's `added` |
| Merge.DryRunPredictsReminders | src/utils/mergeData.js:298-310 | with distinct keys on both sides, the merged reminders outnumber the local ones by exactly the dry run's `added` |
| Encryption.GenerateSyncCode | src/utils/encryption.js:143-157 | nine characters, a hyphen at index 4, and each other character is the symbol of its random byte modulo 36 |
| Encryption.GeneratedCodeIsValid | src/utils/encryption.js:143-167 | the validator accepts every generated code |
| Encryption.NormalizeGenerated | src/utils/encryption.js:143-172 | normalising a generated code leaves exactly its eight symbols |
| Encryption.GeneratedCodeEncodesRandom | src/utils/encryption.js:143-172 | the symbols of a normalised code give back each random byte modulo 36 |
| Encryption.NormalizeSyncCode | src/utils/encryption.js:170-172 | the result is no longer than the input and holds only `A-Z0-9` |
| Encryption.NormalizeIdempotent | src/utils/encryption.js:170-172 | normalising twice is normalising once |
| Encryption.NormalizeIgnoresWhitespace | src/utils/encryption.js:160-172 | stripping whitespace first does not change the normalised code |
| Encryption.ValidateSyncCodeAsWritten | src/utils/encryption.js:160-167 | validateSyncCode as written: whitespace stripped, full Unicode upper-casing, then the `XXXX-XXXX`/`XXXXXXXX` pattern; an accepted code has at most nine characters besides whitespace |
| Encryption.JsUpperNeverShortens | src/utils/encryption.js:162 | JavaScript's upper-casing never makes a string shorter |
| Encryption.ValidateSyncCode | src/utils/encryption.js:160-172 | the corrected validator, upper-casing ASCII letters only: every code it accepts normalises to exactly eight symbols |
| Encryption.ValidatedCodeHasEightSymbols | src/utils/encryption.js:160-172 | every code matching the pattern after ASCII upper-casing normalises to exactly eight symbols |
| Encryption.ValidateSyncCodeNarrows | src/utils/encryption.js:160-167 | the validator with ASCII-only upper-casing accepts only codes the original accepts |
| Encryption.AsWrittenAcceptsUnnormalisableCode | src/utils/encryption.js:160-172 | the validator as written accepts `ßß-ßß`, which normalises to the empty code |
| Encryption.ChecksumHex | src/utils/encryption.js:175-182 | the checksum text is eight lower-case hex digits when the digest has at least four bytes |
| Encryption.ChecksumEncodesDigestPrefix | src/utils/encryption.js:178-181 | each pair of checksum digits reads back as the matching one of the first four digest bytes |
| Encryption.ChecksumOf | src/utils/encryption.js:175-182 | calculateChecksum of any value: for an object it is the object's checksum, and with sound primitives it is always eight characters |
| Encryption.TextAndObjectHashDiffer | src/utils/encryption.js:175-182 | the JSON text of a string and that of an object differ, so their checksums agree only when the two SHA-256 digests share their first four bytes |
| Encryption.SameChecksumSamePrefix | src/utils/encryption.js:175-182 | equal checksum texts come from digests equal in their first four bytes |
| Encryption.DeriveKey | src/utils/encryption.js:53-74 | a key exists exactly when the salt text decodes; with sound primitives, the base64 of a salt gives the key derived from that salt |
| Encryption.EncryptData | src/utils/encryption.js:77-109 | with sound primitives encryption succeeds and its text parses back to the envelope |
| Encryption.OpenEnvelope | src/utils/encryption.js:121-135 | derive the key, decode the IV and ciphertext, decrypt, parse; nothing where any step throws |
| Encryption.EncryptEnvelope | src/utils/encryption.js:77-109 | the envelope carries version `1.0.0`, the time, and the base64 salt and IV; with sound primitives it has the `salt`, `iv` and `data` fields decryptData demands |
| Encryption.DecryptData | src/utils/encryption.js:112-140 | unparsable text or an envelope missing `salt`, `iv` or `data` fails before any key is derived; success implies a key was derived |
| Encryption.EncryptDecryptRoundTrip | src/utils/encryption.js:77-140 | decrypting under the passphrase that encrypted gives the data back |
| Encryption.WrongPassphraseRejected | src/utils/encryption.js:112-140 | decrypting under any other passphrase fails |
| Gist.InitialLimiter | src/services/gistService.js:11-12 | a freshly loaded limiter has a zero count and satisfies the cap |
| Gist.CeilMinutes | src/services/gistService.js:23-24 | the wait in minutes is the least whole number covering the milliseconds left |
| Gist.Refresh | src/services/gistService.js:17-20 | after the window ends the counter restarts at 0 with a window of one hour from now; inside the window nothing changes |
| Gist.CheckRateLimit | src/services/gistService.js:15-28 | keeps the count at most 55; allows exactly when the refreshed count is below 55 and then adds exactly one; a refusal only refreshes, and reports the minutes until the window ends |
| Gist.NewWindowAllows | src/services/gistService.js:15-28 | a call after the window ended is allowed whatever the old count |
| Gist.RefusalChangesNothing | src/services/gistService.js:22-25 | a refused call inside the window leaves the limiter as it was |
| Gist.WindowCap | src/services/gistService.js:15-28 | inside one window, at most 55 calls in total get through, and the window does not move |
| Gist.GetRateLimitStatus | src/services/gistService.js:168-178 | `remaining` plus the count is the cap; limited exactly when the count has reached it |
| Gist.StatusPredictsCheck | src/services/gistService.js:168-178 | inside the window, the status says "limited" exactly when the next check would refuse |
| Gist.ValidateGistId | src/services/gistService.js:194-197 | an id is valid when it is 32 hexadecimal digits of either case |
| Gist.HexIdsAreValid | src/services/gistService.js:194-197 | the hex rendering of any 16 bytes is a valid gist id |
| Gist.GistIdIgnoresCase | src/services/gistService.js:194-197 | upper-casing an id does not change whether it is valid |
| Gist.GistIdRejectsNonHex | src/services/gistService.js:194-197 | an id with any non-hex character is refused |
| Gist.CreateGist | src/services/gistService.js:35-78 | the limiter runs first and a request goes out only when it allows; a refusal reports the wait; a 403 is the remote rate-limit error |
| Gist.GetGist | src/services/gistService.js:85-119 | the limiter runs first; 404 and 403 are their own errors; success is exactly a 2xx reply carrying the sync file, whose content is the result |
| Gist.DeleteGist | src/services/gistService.js:127-150 | without a token: false, no request, no quota used; otherwise the limiter runs first and true means a 2xx reply |
| Storage.ExportSnapshot | src/utils/storage.js:98-117 | the snapshot carries the three stores and version `1.0.0`, and no reminders or metadata |
| Storage.ImportData | src/utils/storage.js:120-141 | the import of the parsed object: each part it has is written and the others stay; the import reports failure only when day records could not be written |
| Storage.ExportData | src/utils/storage.js:98-117 | exportData answers JSON text that, with a sound JSON codec, parses back to the export snapshot |
| Storage.ImportValue | src/utils/storage.js:120-141 | importData on any value: text that does not parse, and any object, leave storage untouched and answer false; text that parses is imported part by part |
| Storage.ObjectImportRejected | src/utils/storage.js:120-141 | handed an object, importData parses `[object Object]`, fails, and writes nothing |
| Storage.ImportOfStringified | src/utils/storage.js:120-141 | importing an object's JSON text is importing the object |
| Storage.TextExportImportRoundTrip | src/utils/storage.js:98-141 | importing exported text restores exactly the exported data, whatever was stored before |
| Storage.ExportImportRoundTrip | src/utils/storage.js:98-141 | importing an export restores exactly the exported data, whatever was stored before |
| Storage.ImportKeepsMissingParts | src/utils/storage.js:120-141 | parts missing from the snapshot are left as stored |
| Sync.SaveSyncMapping | src/services/syncService.js:45-62 | the normalised code maps to the gist for 48 hours from now; exactly the other entries that expired before now are evicted and the rest are untouched |
| Sync.GetGistIdFromSyncCode | src/services/syncService.js:67-81 | "unknown" exactly when the normalised code is absent; "expired" exactly when it is present and expired before now; otherwise the stored gist id |
| Sync.SaveThenLookup | src/services/syncService.js:45-81 | a saved code, written in any form that normalises alike, is found for 48 hours (both ends included) and reported expired after |
| Sync.IsSyncCodeValid | src/services/syncService.js:318-332 | valid exactly when the validator as written accepts the code, the lookup succeeds, and the code does not expire at this very millisecond |
| Sync.ExpiryBoundary | src/services/syncService.js:318-332 | at the exact expiry millisecond the code is reported invalid while lookup still succeeds |
| Sync.AddToSyncHistory | src/services/syncService.js:86-107 | the new entry goes first and at most ten are kept; only an export records its code; the device falls back to this device |
| Sync.HistoryBounded | src/services/syncService.js:86-107 | however many entries are added, the history never exceeds ten |
| Sync.FormatSyncCode | src/services/syncService.js:339-345 | an eight-symbol code is shown as `XXXX-XXXX`; anything else as its normalised form |
| Sync.FormatThenNormalize | src/services/syncService.js:339-345 | normalising the shown form gives back the normalised code |
| Sync.FormattedCodeIsValid | src/services/syncService.js:339-345 | a formatted eight-symbol code passes validation |
| Sync.ApplyImportedData | src/services/syncService.js:243-270 | `skip` succeeds without writing; `replace` and `merge` make the identical import of the snapshot less its sync metadata; any other strategy is an error |
| Sync.ApplyIgnoresSyncMetadata | src/services/syncService.js:243-270 | two snapshots that differ only in sync metadata import alike |
| Sync.ApplyImportedDataAsWritten | src/services/syncService.js:243-270 | applyImportedData as written, handing the object to importData: `skip` succeeds without writing, any unknown strategy is an error |
| Sync.ApplyAsWrittenNeverImports | src/services/syncService.js:243-270 | as written, `replace` and `merge` answer false and write nothing; the corrected apply is the import of the snapshot's JSON text |
| Sync.PayloadOf | src/services/syncService.js:149-157 | `{...data, syncMetadata}`: the spread of the value plus metadata holding the device, the time and the value's checksum |
| Sync.SyncPayloadAsWritten | src/services/syncService.js:146-159 | as written the payload has no activities, day records, settings or reminders; the export survives only as character members that parse back to it |
| Sync.SyncPayload | src/services/syncService.js:146-159 | corrected: the payload is the export object plus metadata whose checksum is that of the export |
| Sync.SpreadPayloadChecksum | src/services/syncService.js:146-215 | the exporter hashes the quoted text and the importer the spread object, different JSON texts, so no mismatch is reported only on a digest collision |
| Sync.SpreadPayloadImportsNothing | src/services/syncService.js:146-270 | even decrypted intact, the spread payload leaves storage as it was under `replace` and `merge` |
| Sync.ExportWith | src/services/syncService.js:146-186 | on failure the registry and history are untouched; the mapping and the history entry are written only after encryption and upload succeed |
| Sync.ExportForSyncAsWritten | src/services/syncService.js:146-186 | as written, a successful export hands out the generated code, which has a hyphen at index 4 |
| Sync.ExportForSync | src/services/syncService.js:146-186 | corrected: with sound primitives the export succeeds exactly when the upload succeeds |
| Sync.ImportFromSync | src/services/syncService.js:193-235 | a code the validator as written refuses is rejected before any lookup; a failed lookup sends no request; the registry is never changed; only success adds a history entry |
| Sync.ImportOfServedText | src/services/syncService.js:203-230 | once the code is valid and registered and the download is allowed, a failed decryption is the error and a successful one is the result, with the checksum comparison as computed |
| Sync.ExportImportRoundTrip | src/services/syncService.js:146-235 | within 48 hours and the rate limit, with the server returning what was uploaded, importing the code an export handed out gives back the exported payload with no checksum mismatch |
| Sync.ExportImportFailsAsWritten | src/services/syncService.js:165-207 | as written, that same import always fails at decryption |
| Sync.SharpCodeReachesLookup | src/services/syncService.js:193-200 | `ßß-ßß` passes the validator as written and fails only at the lookup, as an unknown code; the corrected validator refuses it |
| Store.AddActivity | src/store/useStore.js:35-50 | one activity is appended with `order` equal to the old length, the others are untouched, and the first activity marks the user onboarded |
| Store.AddKeepsDense | src/store/useStore.js:35-50 | adding to a list numbered 0..n-1 keeps it numbered so |
| Store.UpdateActivity | src/store/useStore.js:52-59 | exactly the activities with the id are renamed |
| Store.UpdateActivityKeeps | src/store/useStore.js:52-59 | a rename keeps ids and numbering, and the last rename wins |
| Store.RemoveFromDays | src/store/useStore.js:73-79 | every day keeps its date and place and loses only the id's completions |
| Store.DeleteActivity | src/store/useStore.js:61-81 | every activity with the id goes, the rest keep their order and are renumbered 0..n-1; the id leaves every loaded day and every other completion stays |
| Store.AddThenDelete | src/store/useStore.js:35-81 | deleting a freshly added activity gives back the list and the day records |
| Store.DeleteClearsCompletions | src/store/useStore.js:61-81 | after a delete no completion of the id is left to count |
| Store.MoveActivityUp | src/store/useStore.js:84-102 | the first activity with the id trades places with its predecessor and the list is renumbered; at the top, or for an unknown id, nothing changes |
| Store.MoveActivityDown | src/store/useStore.js:104-122 | the first activity with the id trades places with its successor and the list is renumbered; at the bottom, or for an unknown id, nothing changes |
| Store.MoveActivityDownAsWritten | src/store/useStore.js:104-122 | the move throws exactly for an unknown id on a non-empty list, and otherwise agrees with the guarded move |
| Store.MoveDownUnknownIdThrows | src/store/useStore.js:104-122 | a one-activity list and an id it does not hold make the move throw |
| Store.MoveUpThenDown | src/store/useStore.js:84-122 | moving up and then down restores a densely numbered list |
| Store.MoveDownThenUp | src/store/useStore.js:84-122 | moving down and then up restores a densely numbered list with unique ids |
| Store.SpliceStart | src/store/useStore.js:131-132 | where `splice` starts for a start argument: a start past the end clamps to the length and a negative one counts from the end |
| Store.ReorderActivities | src/store/useStore.js:125-141 | equal indices change nothing; otherwise the dragged activity lands at the new index, the list is renumbered, and the move fails exactly when the old index points past the list |
| Store.MoveMultiset | src/store/useStore.js:125-141 | a drag is a permutation |
| Store.ReorderBack | src/store/useStore.js:125-141 | dragging back to where it came from restores a densely numbered list |
| Store.CurrentDay | src/store/useStore.js:161-163 | the current date's record, or an empty one when it has none |
| Store.ToggleActivity | src/store/useStore.js:161-183 | the id leaves the current day's completions if there, and is appended otherwise; a missing day starts empty; notes and every other day stay |
| Store.ToggleTwice | src/store/useStore.js:161-183 | toggling a not-completed id twice restores the current day's completions |
| Store.UpdateNotes | src/store/useStore.js:185-202 | only the current day's notes change |
| Store.UpdateNotesTwice | src/store/useStore.js:185-202 | the last notes win and notes never touch completions |
| Store.CompletionRate | src/store/useStore.js:244-263 | no rate without activities or days; otherwise the completions over activities × days |
| Store.RateAtMostFull | src/store/useStore.js:244-263 | while each day holds known ids without repeats, the rate never exceeds 100% |
| Store.ActivityStats | src/store/useStore.js:265-288 | a permutation of the activities' stats in list order, each with its completion count, sorted by count, highest first, with equal counts in list order |
| Sorting.SortByStable | src/store/useStore.js:287 | the sort keeps elements of equal key in their input order |
| Store.SetupDefaultActivities | src/store/useStore.js:291-332 | ten activities with the language's default names and the given ids, numbered 0..9, shown every day; the user is onboarded |
| LegacyStore.AddActivity | activity-tracker/src/store/useStore.js:36-47 | `{id, name}` is appended with no `order` and the first activity marks the user onboarded |
| LegacyStore.DeleteActivity | activity-tracker/src/store/useStore.js:58-72 | every activity with the id goes, the others keep their place and `order`; the day records are cleaned as in the current store |
| LegacyStore.DeleteThenRenumber | activity-tracker/src/store/useStore.js:58-72 | the current store's delete is this delete followed by renumbering |
| LegacyStore.AddThenDelete | activity-tracker/src/store/useStore.js:36-72 | deleting a freshly added activity gives back the list |
| LegacyStore.SetupDefaultActivities | activity-tracker/src/store/useStore.js:217-225 | one activity per English default name, in order, with the given ids and no `order`; the user is onboarded |
| LegacyStore.ActivityNames | activity-tracker/src/store/useStore.js:218-221 | the names of the activities, in order |
| LegacyStore.SetupMatchesCurrentStore | activity-tracker/src/store/useStore.js:217-225 | the current store's English defaults are the older store's, numbered |
| DayUtils.AllDays | src/utils/dayUtils.js:17-19 | seven distinct day names |
| DayUtils.DayOfWeek | src/utils/dayUtils.js:8-11 | index 0 is Sunday and index d > 0 is the d-th day of the Monday-first week; every name is a day of the week |
| DayUtils.DayOfWeekInjective | src/utils/dayUtils.js:8-11 | different weekdays have different names |
| DayUtils.IsDayActive | src/utils/dayUtils.js:27-41 | active when the list names the day; without a list, or with anything else, active every day |
| DayUtils.IsValidActiveDays | src/utils/dayUtils.js:87-96 | `'all'`, or a non-empty list of day names |
| DayUtils.ActiveEveryDay | src/utils/dayUtils.js:27-41 | an activity is active on every weekday exactly when it has no day list or its list names every day |
| DayUtils.ActivitiesForDate | src/utils/dayUtils.js:49-51 | exactly the active activities, never more than the list |
| DayUtils.ActivitiesForDateInOrder | src/utils/dayUtils.js:49-51 | the selection keeps list order and keeps a list of active activities whole |
| DayUtils.ActiveDaysString | src/utils/dayUtils.js:59-80 | the every-day label without a list or with seven entries; otherwise the same days sorted Monday first |
| DayUtils.ActiveDaysStringWeekOrder | src/utils/dayUtils.js:59-80 | distinct valid day names come out in strict week order |
| DayUtils.NormalizeActiveDays | src/utils/dayUtils.js:111-133 | always valid; the valid names of an array in order, or `'all'` for a non-array, for no valid name or for seven of them |
| DayUtils.NormalizeIdempotent | src/utils/dayUtils.js:111-133 | normalising twice is normalising once |
| DayUtils.NormalizeValid | src/utils/dayUtils.js:87-133 | a valid value normalises to itself, except a seven-day list, which becomes `'all'` |
| DaySelector.FromProp | src/components/DaySelector.jsx:16-25 | every-day mode exactly when the prop normalises to `'all'`; otherwise the normalised days are selected |
| DaySelector.EveryDayToggle | src/components/DaySelector.jsx:27-40 | into every-day mode: selection cleared and `'all'` emitted; out of it: all seven days selected and emitted |
| DaySelector.DayToggle | src/components/DaySelector.jsx:42-64 | nothing happens in every-day mode or when deselecting the only day; adding a seventh day switches to every-day mode with an empty selection and emits `'all'`; otherwise the emitted selection is the old one with the day appended, or with every copy of it removed; what is emitted is always the new state's value |
| DaySelector.TogglesKeepInv | src/components/DaySelector.jsx:42-64 | the handlers keep the selection at one to six distinct day names, or every-day mode with none |
| DaySelector.DayToggleEmitsValid | src/components/DaySelector.jsx:42-64 | everything a day toggle emits is valid for isValidActiveDays |
| DaySelector.DayToggleEchoes | src/components/DaySelector.jsx:16-64 | handing a day toggle's emission back as the prop reproduces the state the toggle left |
| DaySelector.LeavingEveryDayEchoesBack | src/components/DaySelector.jsx:16-40 | leaving every-day mode emits seven days, and that emission handed back as the prop returns to every-day mode |
| DaySelector.DayToggleTwice | src/components/DaySelector.jsx:42-64 | toggling an unselected day twice, with room for it, restores the selection |
| Reminders.NumberOf | src/utils/reminders.js:177 | a number exactly for a run of digits; the empty field is 0 |
| Reminders.ParseTime | src/utils/reminders.js:177 | a time without a colon does not parse |
| Reminders.ValidTime | src/utils/reminders.js:252-255 | `H:MM` or `HH:MM` with an hour 0..23 and a minute 00..59 |
| Reminders.ValidTimeParses | src/utils/reminders.js:252-255 | every accepted time parses to an hour 0..23 and a minute 0..59 and is that clock written as `HH:MM` or `H:MM` |
| Reminders.RenderedTimesValid | src/utils/reminders.js:252-255 | every hour 0..23 and minute 0..59 written as `HH:MM`, or as `H:MM` below ten, is accepted and parses back |
| Reminders.DefaultReminders | src/utils/reminders.js:8-23 | two enabled reminders, the morning check and the evening review, each at an accepted time |
| Reminders.FindById | src/utils/reminders.js:68-93 | the first reminder with the id, or none exactly when no reminder has it |
| Reminders.CreateReminder | src/utils/reminders.js:52-65 | exactly one enabled reminder is appended with the given fields, and an empty message becomes the default |
| Reminders.DeleteReminder | src/utils/reminders.js:78-83 | every reminder with the id goes and the others stay |
| Reminders.CreateThenDelete | src/utils/reminders.js:52-83 | creating under an unused id and deleting gives back the list |
| Reminders.Patch | src/utils/reminders.js:71 | every supplied member overrides, every other is kept |
| Reminders.UpdateReminder | src/utils/reminders.js:68-75 | matching reminders are patched, the others are unchanged, and the answer is the first updated one |
| Reminders.UpdateIdempotent | src/utils/reminders.js:68-75 | updating twice with one patch is updating once, and an empty patch changes nothing |
| Reminders.ToggleReminder | src/utils/reminders.js:86-93 | `enabled` flips exactly on matching reminders and ids are kept |
| Reminders.ToggleTwice | src/utils/reminders.js:86-93 | toggling twice gives back the list |
| Reminders.TimeUntil | src/utils/reminders.js:191-198 | minutes to the reminder's time are known exactly when its time parses |
| Reminders.ShouldFire | src/utils/reminders.js:174-185 | fires exactly when enabled, in the same hour and within one minute, and then the reminder is at most a minute away |
| Reminders.ShouldFireDoesNotWrapBack | src/utils/reminders.js:174-185 | a 10:00 reminder does not fire at 09:59 |
| Reminders.ShouldFireDoesNotWrapForward | src/utils/reminders.js:174-185 | a 09:59 reminder does not fire at 10:00 |
| Reminders.UpcomingReminders | src/utils/reminders.js:188-209 | exactly the enabled reminders due later within 24 hours, each with its minutes to go, sorted soonest first: a permutation of their entries in list order, equal times keeping list order |
| Reminders.ReminderStatus | src/utils/reminders.js:258-276 | disabled exactly when not enabled; past exactly when earlier today; upcoming exactly within the next hour (now included) |
| Reminders.UpcomingAgreesWithStatus | src/utils/reminders.js:188-276 | a reminder with an accepted time is in the upcoming list exactly when its status is upcoming (not due this minute) or scheduled |
| Reminders.ListedIffDue | src/utils/reminders.js:188-209 | a reminder of the list appears in the upcoming list exactly when it is enabled and due later within 24 hours |
| Reminders.DueIffStatus | src/utils/reminders.js:258-276 | for an accepted time, being due later within 24 hours is the same as a status of upcoming (not this minute) or scheduled |
| Reminders.FiringIsUpcomingOrJustPast | src/utils/reminders.js:174-276 | a firing reminder is upcoming, or past by exactly one minute |
| Reminders.FormatTimeUntil | src/utils/reminders.js:212-226 | past-due exactly for negatives, minutes exactly below an hour; otherwise hours, with the minutes shown only when not zero |
| Reminders.FormatTimeUntilReadsBack | src/utils/reminders.js:212-226 | the phrase for a non-negative count reads back as that count |
| Backup.AddToHistory | src/services/backupService.js:34-54 | the new entry goes first and at most 20 are kept |
| Backup.HistoryStaysCapped | src/services/backupService.js:34-54 | the history never outgrows 20, and below the cap nothing is dropped |
| Backup.Interval | src/services/backupService.js:271-292 | one, seven or thirty days for a known frequency, none otherwise |
| Backup.IsAutoBackupDue | src/services/backupService.js:271-292 | off when disabled; due at once with no earlier backup; never for an unknown frequency; otherwise when strictly more than the interval has passed |
| Backup.NextAutoBackupTime | src/services/backupService.js:348-373 | known exactly when enabled with an earlier backup and a known frequency, and then later than that backup |
| Backup.DueExactlyAfterNextTime | src/services/backupService.js:271-373 | once a next time is known, a backup is due exactly after it |
| Backup.GetBackupStats | src/services/backupService.js:327-343 | exports and imports counted apart; the last backup is the time of the first export in the (newest-first) history and the last restore that of the first import, none when there is no such entry or its time is 0; a missing size counts 0 in the total |
| Backup.ExportShowsInStats | src/services/backupService.js:34-343 | a recorded export at a non-zero time becomes the last backup, and below the cap adds one to the count |
| Backup.CountsPartition | src/services/backupService.js:327-343 | in a history of exports and imports only, the two counts add up to its length |
| Backup.TotalSize | src/services/backupService.js:341 | the sum of the recorded sizes, a missing size counting 0 |
| Backup.TotalSizeConcat | src/services/backupService.js:341 | the total size of two histories is the sum of their totals |
| Backup.ValidateBackupFile | src/services/backupService.js:398-421 | valid exactly without errors; a missing file is the one error; otherwise one error for a non-`.json` name and one for a size over 50 MB or of 0 |
| Backup.ImportPrecheck | src/services/backupService.js:176-190 | a missing file is its own error; otherwise it passes exactly when the name ends in `.json` |
| Backup.ValidatedFilesPassImport | src/services/backupService.js:176-421 | a validated file passes the import's own checks |
| Backup.StripJournals | src/services/backupService.js:110-119 | the same dates in the same order, each record without its journal and otherwise unchanged |
| Backup.FilterExport | src/services/backupService.js:110-134 | without the journal every date stays and only journals go; without reminders they go; backup metadata has type `local_backup`, version `1.0.0`, the export time and both options |
| Backup.AssignMember | src/services/backupService.js:118-126 | assigning a member fails exactly on a string, and on an object updates it |
| Backup.ExportBackupFrom | src/services/backupService.js:98-166 | a failure leaves the history alone and success records one export; starting from text the export always fails |
| Backup.ExportBackupAsWritten | src/services/backupService.js:98-166 | exportBackup on the text exportData answers |
| Backup.ExportBackupAsWrittenFails | src/services/backupService.js:106-126 | as written every backup export fails, whatever the options, and records nothing |
| Backup.ExportBackup | src/services/backupService.js:98-166 | corrected: the file holds the filtered export and the history gains the export |
| Backup.ApplyBackup | src/services/backupService.js:245-266 | corrected: the snapshot less its backup metadata is imported, and `lastRestore` is set exactly when the import succeeds |
| Backup.ApplyBackupAsWritten | src/services/backupService.js:245-266 | as written: importData is handed the object, and `lastRestore` is set exactly when it succeeds |
| Backup.RestoreAsWrittenFails | src/services/backupService.js:245-266 | as written a restore answers false and changes neither the data nor the settings; the corrected restore is the import of the backup's JSON text |
| Backup.BackupRestoreRoundTrip | src/services/backupService.js:98-266 | restoring a full backup made by the corrected export gives back exactly the exported data |
| Backup.JournalFreeRestore | src/services/backupService.js:110-266 | restoring a journal-free backup made by the corrected export gives back the data with exactly the journals removed |

## Left out

- Cryptography: PBKDF2 (section 5.2 of RFC 8018), AES-GCM (NIST SP 800-38D), SHA-256 (FIPS 180-4) and base64 (section 4 of RFC 4648) are opaque functions of a `Primitives` value. `Encryption.Sound` states what the standards promise of them: decryption inverts encryption under the same key and fails under another, distinct passphrases derive distinct keys, base64 and JSON round-trip, the JSON text of an object opens with `{` and that of a string with `"`, and the digest has 32 bytes. `JSON.stringify`/`JSON.parse` in storage.js are likewise a `Storage.Json` pair; `Storage.JsonSound` states that they round-trip and that `[object Object]` is not JSON text.
- Randomness: `crypto.getRandomValues`, the salt and IV generators, and `Math.random`/`Date.now` ids are inputs.
- Network I/O: each `fetch` is a `Gist.HttpReply` parameter (a response with status and parsed body, or a thrown error).
- localStorage plumbing is left out, because it is I/O with no logic. This covers the load/save helpers, getSyncMappings, getSyncHistory, clearSyncHistory, getSyncStatus, getBackupHistory, getBackupSettings' storage read, saveBackupSettings and clearBackupHistory. Stored values are passed in and returned, and a failed write is a `writable` flag.
- The clock is a `now` parameter read once per operation. getTimeUntilReminder and Date-based key formatting are left out; dates appear as date-key strings.
- Floating point is left out: the completion-rate percentage (the model returns the numerator and denominator), formatFileSize and the day counts derived from timestamps.
- Translations are left out: `t()` strings are replaced by the tagged values they select (`DaysLabel`, `TimeText`, `Status`). Their texts are inputs (the default reminders' labels and messages).
- detectConflicts is called by importFromSync and backupService, but no module in the repository defines it. syncService.js (lines 19-23) and backupService.js (line 10) import it from storage.js, which does not export it (storage.js lines 7-144), so neither module can be linked as written. Conflict detection is not part of this model.
- getDeviceInfo is left out because it reads the browser. Its result is an input.
- compressData, decompressData, formatGistUrl, createShareableLink and parseGistIdFromSyncCode are left out: they are string plumbing that none of the modelled operations calls.
- getDefaultActiveDays is left out: it is the constant `'all'`.
- src/utils/offline.js, notifications and their permission API, initializeReminders, performAutoBackup and every other React component are left out as browser and UI code. This also covers initialize, loadDailyData, getSortedActivities, date navigation, setCurrentDate and toggleDarkMode in the stores.
- importBackup's FileReader and `JSON.parse` steps are left out. Only its file checks before reading are modelled.
- JSON round trips inside one module are left out: `JSON.parse(JSON.stringify(x))` is taken as `x`, and deep equality of parsed objects as value equality. Where a value crosses between text and object (exportData, importData and their callers), both forms are modelled (`Exported`).
- Storage.ImportData: imports an already parsed object. importData itself, which parses its argument, is `Storage.ImportValue`. Its object-passing callers in syncService.js and backupService.js are modelled as written, where every import fails, and corrected; see Findings. The strategy argument that applyBackup passes is ignored by `importData`, and the model ignores it likewise.
- Sync.ApplyIgnoresSyncMetadata: states the corrected apply. As written no import reaches storage at all (`Sync.ApplyAsWrittenNeverImports`).
- Sync.ExportImportRoundTrip: holds for the corrected export, which encrypts the export object under the normalised code. As written the import fails at decryption (`Sync.ExportImportFailsAsWritten`), and a spread payload that did decrypt would import nothing (`Sync.SpreadPayloadImportsNothing`).
- Sync.ExportWith: the payload is a parameter. The as-written export passes `Sync.SyncPayloadAsWritten` and the code as handed out; the corrected one passes `Sync.SyncPayload` and the normalised code.
- Backup.StripJournals: the journal stripping of a corrected export. As written, exportBackup throws before anything is stripped (`Backup.ExportBackupAsWrittenFails`).
- Backup.BackupRestoreRoundTrip: holds for the corrected export and restore. As written both fail (`Backup.ExportBackupAsWrittenFails`, `Backup.RestoreAsWrittenFails`).
- Backup.JournalFreeRestore: holds for the corrected export and restore, for the same reason.
- backupService.js imports `validateBackupData`, `detectConflicts` and `generateBackupFilename` from storage.js (lines 6-12), and storage.js exports none of them, so the module cannot be linked as written. The file name is an input of the backup export, and importBackup's use of `validateBackupData` lies in the FileReader step left out above.
- DayUtils.ActiveDaysString: getActiveDaysString sorts `activity.activeDays` in place (dayUtils.js:71), so showing the label reorders the stored activity's day list. The model returns the label only and leaves the activity as it was.
- Reminders.NumberOf: whitespace, signs, decimals, exponents, hexadecimal and `Infinity` in a time field are all treated as `NaN` (`None`), although `Number` accepts some of them. Times reaching it from the picker are digits.
- Reminders.Patch: an update object that spells out a member as `undefined` is not modelled. Such a member counts as left out.
- Encryption.JsUpper: JavaScript's upper-casing is modelled for ASCII and a few special characters (`ß`, `ı`, `ſ`, `ﬀ`, and the like) only. Other characters are treated as having no upper-case form.
- Store.MoveActivityDown: the model uses the corrected move; the code as written is under Findings.
- Sync.ExportForSync: the model uses the corrected payload and passphrase; the code as written is `Sync.ExportForSyncAsWritten`, under Findings.
- Sync.ImportFromSync and Sync.IsSyncCodeValid use the validator as written, as the source does; the corrected validator appears only in the lemmas that contrast the two.
- The rate limiter's counters are module-level mutable state. They are a `Gist.Limiter` value threaded through every call.

## Findings

| source | as written | input that shows it | evidently intended | confidence | as-written member | corrected member |
|---|---|---|---|---|---|---|
| src/utils/encryption.js:160-172 | validateSyncCode strips whitespace and upper-cases with JavaScript's full Unicode `toUpperCase`, then tests `^[A-Z0-9]{4}-?[A-Z0-9]{4}$`; normalizeSyncCode drops everything outside `[A-Za-z0-9]` | `ßß-ßß` upper-cases to `SSSS-SSSS` and is accepted, but normalises to the empty code | every accepted code normalises to its eight symbols | high (not executed) | Encryption.AsWrittenAcceptsUnnormalisableCode | Encryption.ValidateSyncCode |
| src/store/useStore.js:104-122 | moveActivityDown's only guard is `currentIndex < activities.length - 1`, which `findIndex`'s -1 passes | a list with one activity and an id it does not hold: slot 0 becomes `undefined` and the renumbering throws a TypeError | an unknown id changes nothing, as in moveActivityUp | high (not executed) | Store.MoveDownUnknownIdThrows | Store.MoveDownThenUp |
| src/services/syncService.js:162-165 | exportForSync encrypts under the code as handed out, `XXXX-XXXX` with its hyphen, while importFromSync (line 207) decrypts under `normalizeSyncCode(code)`, the eight symbols alone | any export followed by importing the code it handed out: the two passphrases differ, the derived keys differ, and AES-GCM authentication fails | export and import use the same passphrase, so the round trip returns the exported data | medium (not executed; assumes distinct passphrases derive distinct keys) | Sync.ExportImportFailsAsWritten | Sync.ExportImportRoundTrip |
| src/services/syncService.js:149-157 | exportForSync spreads `exportData()`, which is JSON text (storage.js:112), into `{...data, syncMetadata}`, and checksums that text | any export: the payload's members are the characters `"0"`, `"1"`, ... and `syncMetadata`; it has no activities, day records or settings, and the checksum covers the quoted text while the importer hashes the spread object | the payload is the export object with its metadata, so an import restores the data and the checksum matches | high (not executed) | Sync.SpreadPayloadImportsNothing | Sync.ExportImportRoundTrip |
| src/services/syncService.js:253-257 | applyImportedData passes the object `dataToImport` to importData, which runs `JSON.parse` on it | any snapshot with `replace` or `merge`: `JSON.parse` sees `[object Object]` and throws, importData answers false, and nothing is written | the snapshot is imported, as importing its JSON text would | high (not executed) | Sync.ApplyAsWrittenNeverImports | Sync.ApplyImportedData |
| src/services/backupService.js:252 | applyBackup passes the object `dataToImport` to importData | any backup: importData answers false, nothing is written, and `lastRestore` is never set | the backup is imported and the restore time recorded | high (not executed) | Backup.RestoreAsWrittenFails | Backup.BackupRestoreRoundTrip |
| src/services/backupService.js:118-126 | exportBackup assigns `data.dailyData` and `data.backupMetadata` on the string exportData answers | any options: in module (strict) code the assignment throws a TypeError, so exportBackup answers `success: false` and records nothing | the export object is filtered, written and recorded in the history | high (not executed) | Backup.ExportBackupAsWrittenFails | Backup.ExportBackup |
