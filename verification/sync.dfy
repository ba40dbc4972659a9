/** The sync service (src/services/syncService.js): the registry from sync
    codes to gist ids, the sync history, code formatting, the export and
    import pipelines, and the application of imported data.

    The registry, the history and the request limiter are one `SyncState`
    value; every pipeline takes it and returns the next one. Each
    `Date.now()` of a call is the one parameter `now`; the device description,
    the random bytes, the HTTP replies and the cryptographic primitives are
    parameters too. The registry lives in the exporting browser's storage, so
    a code can be looked up only where it was made. */
module Sync {
  import opened Common
  import opened Model
  import Encryption
  import Gist
  import Storage

  /** 48 hours in milliseconds. */
  const MappingLifetimeMs := 172800000

  const MaxHistoryItems := 10

  datatype Mapping = Mapping(gistId: string, createdAt: int, expiresAt: int)

  /** The registry, keyed by normalised sync code. */
  type Mappings = map<string, Mapping>

  /** saveSyncMapping: record the code, then evict every entry that expired before `now`. */
  function SaveSyncMapping(m: Mappings, code: string, gistId: string, now: int): (r: Mappings)
    ensures Encryption.NormalizeSyncCode(code) in r
    ensures r[Encryption.NormalizeSyncCode(code)] == Mapping(gistId, now, now + MappingLifetimeMs)
    ensures forall k | k in r && k != Encryption.NormalizeSyncCode(code) :: k in m && r[k] == m[k]
    ensures forall k | k in m && k != Encryption.NormalizeSyncCode(code) :: k in r <==> m[k].expiresAt >= now
  {
    var written := m[Encryption.NormalizeSyncCode(code) := Mapping(gistId, now, now + MappingLifetimeMs)];
    map k | k in written && written[k].expiresAt >= now :: written[k]
  }

  datatype LookupError = UnknownCode | ExpiredCode

  /** getGistIdFromSyncCode */
  function GetGistIdFromSyncCode(m: Mappings, code: string, now: int): (r: Result<string, LookupError>)
    ensures r == Err(UnknownCode) <==> Encryption.NormalizeSyncCode(code) !in m
    ensures r == Err(ExpiredCode) <==>
      Encryption.NormalizeSyncCode(code) in m && m[Encryption.NormalizeSyncCode(code)].expiresAt < now
    ensures r.Ok? ==> r.value == m[Encryption.NormalizeSyncCode(code)].gistId
  {
    var key := Encryption.NormalizeSyncCode(code);
    if key !in m then Err(UnknownCode)
    else if m[key].expiresAt < now then Err(ExpiredCode)
    else Ok(m[key].gistId)
  }

  /** A saved code is found for 48 hours (both ends included) and reported
      expired afterwards, in any way of writing it that normalises alike. */
  lemma SaveThenLookup(m: Mappings, code: string, other: string, gistId: string, saved: int, now: int)
    requires Encryption.NormalizeSyncCode(other) == Encryption.NormalizeSyncCode(code)
    requires saved <= now
    ensures now <= saved + MappingLifetimeMs ==>
      GetGistIdFromSyncCode(SaveSyncMapping(m, code, gistId, saved), other, now) == Ok(gistId)
    ensures now > saved + MappingLifetimeMs ==>
      GetGistIdFromSyncCode(SaveSyncMapping(m, code, gistId, saved), other, now) == Err(ExpiredCode)
  {
  }

  /** isSyncCodeValid: well-formed by the validator as written, registered,
      and expiring strictly after `now`: valid exactly when the lookup
      succeeds, except at the expiry millisecond itself. */
  function IsSyncCodeValid(m: Mappings, code: string, now: int): (b: bool)
    ensures b <==> (Encryption.ValidateSyncCodeAsWritten(code) && GetGistIdFromSyncCode(m, code, now).Ok?
                    && m[Encryption.NormalizeSyncCode(code)].expiresAt != now)
  {
    Encryption.ValidateSyncCodeAsWritten(code)
    && Encryption.NormalizeSyncCode(code) in m
    && m[Encryption.NormalizeSyncCode(code)].expiresAt > now
  }

  /** At the very millisecond a code expires, the validity check says no while
      the lookup still succeeds: the one uses `>`, the other `<`. */
  lemma ExpiryBoundary(m: Mappings, code: string, now: int)
    requires Encryption.NormalizeSyncCode(code) in m
    requires m[Encryption.NormalizeSyncCode(code)].expiresAt == now
    ensures !IsSyncCodeValid(m, code, now)
    ensures GetGistIdFromSyncCode(m, code, now).Ok?
  {
  }

  datatype SyncKind = Export | Import

  datatype HistoryEntry = HistoryEntry(kind: SyncKind, syncCode: Option<string>, timestamp: int, deviceInfo: string)

  /** addToSyncHistory: the new entry goes first, the list keeps at most ten;
      only an export records its code; a missing or empty device description
      falls back to this device's. */
  function AddToSyncHistory(h: seq<HistoryEntry>, kind: SyncKind, code: Option<string>,
                            deviceInfo: Option<string>, thisDevice: string, now: int): (r: seq<HistoryEntry>)
    ensures |r| == if |h| + 1 <= MaxHistoryItems then |h| + 1 else MaxHistoryItems
    ensures r[0].kind == kind && r[0].timestamp == now
    ensures r[0].syncCode == if kind == Export then code else None
    ensures r[0].deviceInfo == if Truthy(deviceInfo) then deviceInfo.value else thisDevice
    ensures forall i :: 1 <= i < |r| ==> r[i] == h[i - 1]
  {
    var entry := HistoryEntry(kind, if kind == Export then code else None, now,
                              if Truthy(deviceInfo) then deviceInfo.value else thisDevice);
    Take([entry] + h, MaxHistoryItems)
  }

  /** The history stays within its cap, however many entries are added. */
  lemma {:induction false} HistoryBounded(h: seq<HistoryEntry>, adds: seq<(SyncKind, Option<string>)>, thisDevice: string, now: int)
    requires |h| <= MaxHistoryItems
    ensures |AddAll(h, adds, thisDevice, now)| <= MaxHistoryItems
    decreases |adds|
  {
    if |adds| > 0 {
      HistoryBounded(AddToSyncHistory(h, adds[0].0, adds[0].1, None, thisDevice, now), adds[1..], thisDevice, now);
    }
  }

  /** A run of history additions. */
  function AddAll(h: seq<HistoryEntry>, adds: seq<(SyncKind, Option<string>)>, thisDevice: string, now: int): seq<HistoryEntry>
    decreases |adds|
  {
    if |adds| == 0 then h
    else AddAll(AddToSyncHistory(h, adds[0].0, adds[0].1, None, thisDevice, now), adds[1..], thisDevice, now)
  }

  /** formatSyncCode: eight symbols are shown as `XXXX-XXXX`, anything else as normalised. */
  function FormatSyncCode(code: string): (r: string)
    ensures |Encryption.NormalizeSyncCode(code)| == 8 ==> |r| == 9 && r[4] == '-'
    ensures |Encryption.NormalizeSyncCode(code)| != 8 ==> r == Encryption.NormalizeSyncCode(code)
  {
    var n := Encryption.NormalizeSyncCode(code);
    if |n| == 8 then n[..4] + "-" + n[4..] else n
  }

  /** The display form of eight symbols is the symbols with a hyphen after the fourth. */
  lemma FormattedShape(code: string)
    requires |Encryption.NormalizeSyncCode(code)| == 8
    ensures var r := FormatSyncCode(code);
      && (forall i :: 0 <= i < 9 && i != 4 ==> Encryption.IsCodeChar(r[i]))
      && r[..4] + r[5..] == Encryption.NormalizeSyncCode(code)
  {
    var n := Encryption.NormalizeSyncCode(code);
    var r := FormatSyncCode(code);
    forall i | 0 <= i < 9 && i != 4
      ensures Encryption.IsCodeChar(r[i])
    {
      if i < 4 { assert r[i] == n[i]; } else { assert r[i] == n[i - 1]; }
    }
  }

  /** Formatting loses nothing: normalising the display form gives back the normalised code. */
  lemma FormatThenNormalize(code: string)
    ensures Encryption.NormalizeSyncCode(FormatSyncCode(code)) == Encryption.NormalizeSyncCode(code)
  {
    var n := Encryption.NormalizeSyncCode(code);
    var r := FormatSyncCode(code);
    if |n| == 8 {
      FormattedShape(code);
      Encryption.HyphenDropped(r);
      Encryption.CodeCharsAreFixed(n);
    } else {
      Encryption.NormalizeIdempotent(code);
    }
  }

  /** A formatted eight-symbol code passes validation. */
  lemma FormattedCodeIsValid(code: string)
    requires |Encryption.NormalizeSyncCode(code)| == 8
    ensures Encryption.ValidateSyncCode(FormatSyncCode(code))
  {
    var r := FormatSyncCode(code);
    FormattedShape(code);
    Encryption.CodeTextUnchanged(r);
    assert Encryption.AsciiUpperString(Filter(Encryption.NotWhitespace, r)) == r;
  }

  // ---------------------------------------------------------------------
  // Applying imported data

  datatype ApplyError = InvalidStrategy

  /** applyImportedData: drop the sync metadata, then import for `replace`
      and `merge` alike (`merge` is also what a caller that names no strategy
      gets), do nothing for `skip`, and throw for anything else. */
  function ApplyImportedData(d: Snapshot, strategy: Strategy, s: Storage.StoredData, writable: bool)
    : (r: Result<(bool, Storage.StoredData), ApplyError>)
    ensures strategy == Skip ==> r == Ok((true, s))
    ensures strategy in {Replace, Merge} ==> r == Ok(Storage.ImportData(d.(syncMetadata := None), s, writable))
    ensures r.Err? <==> strategy !in {Replace, Merge, Skip}
  {
    var toImport := d.(syncMetadata := None);
    match strategy
    case Replace => Ok(Storage.ImportData(toImport, s, writable))
    case Merge => Ok(Storage.ImportData(toImport, s, writable))
    case Skip => Ok((true, s))
    case _ => Err(InvalidStrategy)
  }

  /** applyImportedData as written: the object is handed to importData, whose
      `JSON.parse` sees `[object Object]`, so `replace` and `merge` answer
      false whatever the snapshot. */
  function ApplyImportedDataAsWritten(d: Snapshot, strategy: Strategy, s: Storage.StoredData, writable: bool, j: Storage.Json)
    : (r: Result<(bool, Storage.StoredData), ApplyError>)
    ensures strategy == Skip ==> r == Ok((true, s))
    ensures r.Err? <==> strategy !in {Replace, Merge, Skip}
  {
    var toImport := AsObject(d.(syncMetadata := None));
    match strategy
    case Replace => Ok(Storage.ImportValue(toImport, s, writable, j))
    case Merge => Ok(Storage.ImportValue(toImport, s, writable, j))
    case Skip => Ok((true, s))
    case _ => Err(InvalidStrategy)
  }

  /** As written, applying imported data never writes anything and answers
      false; the corrected version imports the same snapshot's JSON text. */
  lemma ApplyAsWrittenNeverImports(d: Snapshot, strategy: Strategy, s: Storage.StoredData, writable: bool, j: Storage.Json)
    requires Storage.JsonSound(j) && strategy in {Replace, Merge}
    ensures ApplyImportedDataAsWritten(d, strategy, s, writable, j) == Ok((false, s))
    ensures ApplyImportedData(d, strategy, s, writable)
      == Ok(Storage.ImportValue(AsText(j.stringify(d.(syncMetadata := None))), s, writable, j))
  {
    Storage.ObjectImportRejected(d.(syncMetadata := None), s, writable, j);
    Storage.ImportOfStringified(d.(syncMetadata := None), s, writable, j);
  }

  /** The metadata never reaches storage: two snapshots differing only in it import alike. */
  lemma ApplyIgnoresSyncMetadata(d: Snapshot, meta: Option<SyncMetadata>, strategy: Strategy, s: Storage.StoredData, writable: bool)
    ensures ApplyImportedData(d.(syncMetadata := meta), strategy, s, writable) == ApplyImportedData(d, strategy, s, writable)
  {
  }

  // ---------------------------------------------------------------------
  // The pipelines

  datatype SyncState = SyncState(mappings: Mappings, history: seq<HistoryEntry>, limiter: Gist.Limiter)

  datatype SyncError =
    | EncryptFailed
    | UploadFailed(upload: Gist.GistError)
    | InvalidCodeFormat
    | LookupFailed(lookup: LookupError)
    | DownloadFailed(download: Gist.GistError)
    | DecryptFailed

  datatype ExportInfo = ExportInfo(syncCode: string, gistId: string, expiresAt: int, url: string)

  /** The inputs of an export that come from outside the program. */
  datatype ExportEnv = ExportEnv(
    now: int,
    exportDate: string,        // `new Date().toISOString()`
    device: string,            // getDeviceInfo()
    codeBytes: seq<byte>,      // the 8 random bytes of the sync code
    salt: seq<byte>,           // the 16 random salt bytes
    iv: seq<byte>,             // the 12 random IV bytes
    reply: Gist.HttpReply)     // the server's answer to the upload

  predicate WellFormedEnv(e: ExportEnv) {
    |e.codeBytes| == 8 && |e.salt| == 16 && |e.iv| == 12
  }

  /** `{...data, syncMetadata}` with the checksum of `data`, whatever `data` is. */
  function PayloadOf(v: Exported, e: ExportEnv, p: Encryption.Primitives): (d: Snapshot)
    ensures d.(syncMetadata := None) == Spread(v).(syncMetadata := None)
    ensures d.syncMetadata == Some(SyncMetadata(e.device, e.now, Encryption.ChecksumOf(v, p)))
  {
    Spread(v).(syncMetadata := Some(SyncMetadata(e.device, e.now, Encryption.ChecksumOf(v, p))))
  }

  /** The object exportForSync encrypts, as written: exportData answers text,
      so the spread copies its characters and no data member; the checksum is
      that of the quoted text. */
  function SyncPayloadAsWritten(s: Storage.StoredData, e: ExportEnv, j: Storage.Json, p: Encryption.Primitives): (d: Snapshot)
    ensures d.activities.None? && d.dailyData.None? && d.settings.None? && d.reminders.None?
    ensures Storage.JsonSound(j) ==> j.parse(d.indexChars) == Some(Storage.ExportSnapshot(s, e.exportDate))
  {
    PayloadOf(AsText(Storage.ExportData(s, e.exportDate, j)), e, p)
  }

  /** The object exportForSync encrypts, corrected: the export object plus its
      sync metadata, whose checksum covers the export without it. */
  function SyncPayload(s: Storage.StoredData, e: ExportEnv, p: Encryption.Primitives): (d: Snapshot)
    ensures d.syncMetadata.Some? && d.syncMetadata.value.checksum == Encryption.Checksum(d.(syncMetadata := None), p)
    ensures d.(syncMetadata := None) == Storage.ExportSnapshot(s, e.exportDate)
  {
    PayloadOf(AsObject(Storage.ExportSnapshot(s, e.exportDate)), e, p)
  }

  /** The spread payload's checksum covers the quoted text, while the importer
      hashes the object without its metadata: different JSON texts, so the
      importer reports no mismatch only on a SHA-256 collision in the first
      four bytes. */
  lemma SpreadPayloadChecksum(s: Storage.StoredData, e: ExportEnv, j: Storage.Json, p: Encryption.Primitives)
    requires Encryption.Sound(p)
    ensures var d := SyncPayloadAsWritten(s, e, j, p);
      var t := Storage.ExportData(s, e.exportDate, j);
      && p.serializeText(t) != p.serialize(d.(syncMetadata := None))
      && (!ChecksumMismatch(d, p) ==>
            p.digest(p.serializeText(t))[..4] == p.digest(p.serialize(d.(syncMetadata := None)))[..4])
  {
    var d := SyncPayloadAsWritten(s, e, j, p);
    var t := Storage.ExportData(s, e.exportDate, j);
    Encryption.TextAndObjectHashDiffer(t, d.(syncMetadata := None), p);
  }

  /** Even once it arrives intact, the spread payload carries no activities, day
      records or settings: applying it leaves storage as it was. */
  lemma SpreadPayloadImportsNothing(s: Storage.StoredData, e: ExportEnv, j: Storage.Json, p: Encryption.Primitives,
                                    strategy: Strategy, before: Storage.StoredData, writable: bool)
    requires strategy in {Replace, Merge}
    ensures ApplyImportedData(SyncPayloadAsWritten(s, e, j, p), strategy, before, writable) == Ok((true, before))
  {
  }

  /** The sync code an export hands out. */
  function ExportCode(e: ExportEnv): string
    requires WellFormedEnv(e)
  {
    Encryption.GenerateSyncCode(e.codeBytes)
  }

  /** The passphrase an export encrypts with: the code as handed out
      (`normalize` false, as written) or its normalised form (`normalize` true). */
  function ExportPassphrase(e: ExportEnv, normalize: bool): string
    requires WellFormedEnv(e)
  {
    if normalize then Encryption.NormalizeSyncCode(ExportCode(e)) else ExportCode(e)
  }

  /** The text an export uploads. */
  function Uploaded(payload: Snapshot, e: ExportEnv, p: Encryption.Primitives, normalize: bool): Result<string, Encryption.CryptoError>
    requires WellFormedEnv(e)
  {
    Encryption.EncryptData(payload, ExportPassphrase(e, normalize), e.salt, e.iv, e.now, p)
  }

  /** The steps of exportForSync, in order: build and checksum the payload,
      generate a code, encrypt, upload, and only then record the mapping and
      the history entry. */
  function ExportWith(st: SyncState, payload: Snapshot, e: ExportEnv, p: Encryption.Primitives, normalize: bool)
    : (r: (Result<ExportInfo, SyncError>, SyncState))
    requires WellFormedEnv(e)
    ensures r.0.Err? ==> r.1.mappings == st.mappings && r.1.history == st.history
    ensures r.0.Ok? ==> r.0.value.syncCode == ExportCode(e) && r.0.value.expiresAt == e.now + MappingLifetimeMs
    ensures r.0.Ok? ==> r.1.mappings == SaveSyncMapping(st.mappings, ExportCode(e), r.0.value.gistId, e.now)
    ensures r.0.Ok? ==> r.1.history == AddToSyncHistory(st.history, Export, Some(ExportCode(e)), None, e.device, e.now)
    ensures r.0.Ok? ==> Uploaded(payload, e, p, normalize).Ok? && Gist.CreateGist(st.limiter, e.now, e.reply).result.Ok?
    ensures Encryption.Sound(p) ==>
      r.0.Ok? == Gist.CreateGist(st.limiter, e.now, e.reply).result.Ok? &&
      r.1.limiter == Gist.CreateGist(st.limiter, e.now, e.reply).limiter
  {
    var code := ExportCode(e);
    match Uploaded(payload, e, p, normalize)
    case Err(_) => (Err(EncryptFailed), st)
    case Ok(text) =>
      var call := Gist.CreateGist(st.limiter, e.now, e.reply);
      var st1 := st.(limiter := call.limiter);
      match call.result
      case Err(g) => (Err(UploadFailed(g)), st1)
      case Ok(info) =>
        var st2 := st1.(mappings := SaveSyncMapping(st1.mappings, code, info.id, e.now),
                        history := AddToSyncHistory(st1.history, Export, Some(code), None, e.device, e.now));
        (Ok(ExportInfo(code, info.id, e.now + MappingLifetimeMs, info.url)), st2)
  }

  /** exportForSync as written: the spread of the exported text is encrypted
      under the code as handed out, hyphen included. */
  function ExportForSyncAsWritten(st: SyncState, s: Storage.StoredData, e: ExportEnv, j: Storage.Json, p: Encryption.Primitives)
    : (r: (Result<ExportInfo, SyncError>, SyncState))
    requires WellFormedEnv(e)
    ensures r.0.Ok? ==> r.0.value.syncCode == ExportCode(e) && ExportCode(e)[4] == '-'
  {
    ExportWith(st, SyncPayloadAsWritten(s, e, j, p), e, p, false)
  }

  /** exportForSync corrected: the export object is encrypted under the
      passphrase the importer uses, the normalised code. */
  function ExportForSync(st: SyncState, s: Storage.StoredData, e: ExportEnv, p: Encryption.Primitives)
    : (r: (Result<ExportInfo, SyncError>, SyncState))
    requires WellFormedEnv(e)
    ensures Encryption.Sound(p) ==>
      (r.0.Ok? <==> Gist.CreateGist(st.limiter, e.now, e.reply).result.Ok?)
  {
    ExportWith(st, SyncPayload(s, e, p), e, p, true)
  }

  datatype ImportInfo = ImportInfo(data: Snapshot, metadata: Option<SyncMetadata>, checksumMismatch: bool)

  /** The steps of importFromSync, in order: reject a malformed code before
      anything else, look the code up, download, decrypt under the normalised
      code, compare the checksum (a mismatch is only reported), and record the
      import in the history. */
  function ImportFromSync(st: SyncState, code: string, now: int, reply: Gist.HttpReply,
                          thisDevice: string, p: Encryption.Primitives)
    : (r: (Result<ImportInfo, SyncError>, SyncState))
    ensures !Encryption.ValidateSyncCodeAsWritten(code) ==> r == (Err(InvalidCodeFormat), st)
    ensures Encryption.ValidateSyncCodeAsWritten(code) && GetGistIdFromSyncCode(st.mappings, code, now).Err? ==>
      r == (Err(LookupFailed(GetGistIdFromSyncCode(st.mappings, code, now).error)), st)
    ensures r.1.mappings == st.mappings
    ensures r.0.Err? ==> r.1.history == st.history
    ensures r.0.Ok? ==> r.1.history == AddToSyncHistory(st.history, Import, None,
      if r.0.value.metadata.Some? then Some(r.0.value.metadata.value.deviceInfo) else None, thisDevice, now)
  {
    if !Encryption.ValidateSyncCodeAsWritten(code) then (Err(InvalidCodeFormat), st)
    else
      match GetGistIdFromSyncCode(st.mappings, code, now)
      case Err(l) => (Err(LookupFailed(l)), st)
      case Ok(gistId) =>
        var call := Gist.GetGist(st.limiter, now, reply);
        var st1 := st.(limiter := call.limiter);
        match call.result
        case Err(g) => (Err(DownloadFailed(g)), st1)
        case Ok(text) =>
          match Encryption.DecryptData(text, Encryption.NormalizeSyncCode(code), p).result
          case Err(_) => (Err(DecryptFailed), st1)
          case Ok(data) =>
            var mismatch := ChecksumMismatch(data, p);
            var device := if data.syncMetadata.Some? then Some(data.syncMetadata.value.deviceInfo) else None;
            var st2 := st1.(history := AddToSyncHistory(st1.history, Import, None, device, thisDevice, now));
            (Ok(ImportInfo(data, data.syncMetadata, mismatch)), st2)
  }

  /** Whether the decrypted data carries a non-empty checksum that does not
      match the data without its sync metadata. */
  predicate ChecksumMismatch(data: Snapshot, p: Encryption.Primitives) {
    data.syncMetadata.Some? && data.syncMetadata.value.checksum != "" &&
    Encryption.Checksum(data.(syncMetadata := None), p) != data.syncMetadata.value.checksum
  }

  /** Once the code is valid and known and the download is allowed, a server
      returning `text` leaves the outcome to decrypting `text` under the
      normalised code. */
  lemma ImportOfServedText(st: SyncState, code: string, now: int, text: string, thisDevice: string, p: Encryption.Primitives)
    requires Encryption.ValidateSyncCodeAsWritten(code) && GetGistIdFromSyncCode(st.mappings, code, now).Ok?
    requires Gist.CheckRateLimit(st.limiter, now).0.Allowed?
    ensures var d := Encryption.DecryptData(text, Encryption.NormalizeSyncCode(code), p).result;
      var r := ImportFromSync(st, code, now, ServedReply(text), thisDevice, p).0;
      && (d.Err? ==> r == Err(DecryptFailed))
      && (d.Ok? ==> r == Ok(ImportInfo(d.value, d.value.syncMetadata, ChecksumMismatch(d.value, p))))
  {
    assert Gist.GetGist(st.limiter, now, ServedReply(text)).result == Ok(text);
  }

  /** The reply of a server that returns `text` as the sync file's content. */
  function ServedReply(text: string): (reply: Gist.HttpReply)
    ensures reply.Response? && Gist.Ok2xx(reply.status)
  {
    Gist.Response(200, Some(Gist.GistJson("", "", "", Some(map[Gist.GistFilename := Gist.GistFile(text, "")]))))
  }

  /** Export followed by import on the same device, within 48 hours, with the
      server returning what was uploaded: the import yields exactly the
      exported payload and its checksum matches. */
  lemma ExportImportRoundTrip(st: SyncState, s: Storage.StoredData, e: ExportEnv, p: Encryption.Primitives,
                              now: int, thisDevice: string)
    requires WellFormedEnv(e) && Encryption.Sound(p)
    requires Gist.CreateGist(st.limiter, e.now, e.reply).result.Ok?
    requires e.now <= now <= e.now + MappingLifetimeMs
    requires Gist.CheckRateLimit(Gist.CreateGist(st.limiter, e.now, e.reply).limiter, now).0.Allowed?
    ensures var st1 := ExportForSync(st, s, e, p).1;
            var code := ExportForSync(st, s, e, p).0.value.syncCode;
            ImportFromSync(st1, code, now, ServedReply(Uploaded(SyncPayload(s, e, p), e, p, true).value), thisDevice, p).0
              == Ok(ImportInfo(SyncPayload(s, e, p), SyncPayload(s, e, p).syncMetadata, false))
  {
    var code := ExportCode(e);
    var (res, st1) := ExportForSync(st, s, e, p);
    var data := SyncPayload(s, e, p);
    Encryption.GeneratedCodeIsValid(e.codeBytes);
    Encryption.ValidateSyncCodeNarrows(code);
    SaveThenLookup(st.mappings, code, code, res.value.gistId, e.now, now);
    Encryption.EncryptDecryptRoundTrip(data, Encryption.NormalizeSyncCode(code), e.salt, e.iv, e.now, p);
    ImportOfServedText(st1, code, now, Uploaded(data, e, p, true).value, thisDevice, p);
    assert !ChecksumMismatch(data, p);
  }

  /** As written, the same round trip always fails at decryption: the data was
      encrypted under `XXXX-XXXX` and is decrypted under `XXXXXXXX`. */
  lemma ExportImportFailsAsWritten(st: SyncState, s: Storage.StoredData, e: ExportEnv, j: Storage.Json, p: Encryption.Primitives,
                                   now: int, thisDevice: string)
    requires WellFormedEnv(e) && Encryption.Sound(p)
    requires Gist.CreateGist(st.limiter, e.now, e.reply).result.Ok?
    requires e.now <= now <= e.now + MappingLifetimeMs
    requires Gist.CheckRateLimit(Gist.CreateGist(st.limiter, e.now, e.reply).limiter, now).0.Allowed?
    ensures var st1 := ExportForSyncAsWritten(st, s, e, j, p).1;
            var code := ExportForSyncAsWritten(st, s, e, j, p).0.value.syncCode;
            ImportFromSync(st1, code, now, ServedReply(Uploaded(SyncPayloadAsWritten(s, e, j, p), e, p, false).value), thisDevice, p).0
              == Err(DecryptFailed)
  {
    var code := ExportCode(e);
    var data := SyncPayloadAsWritten(s, e, j, p);
    var (res, st1) := ExportForSyncAsWritten(st, s, e, j, p);
    Encryption.GeneratedCodeIsValid(e.codeBytes);
    Encryption.ValidateSyncCodeNarrows(code);
    Encryption.GeneratedCodeEncodesRandom(e.codeBytes);
    assert |Encryption.NormalizeSyncCode(code)| != |code|;
    SaveThenLookup(st.mappings, code, code, res.value.gistId, e.now, now);
    Encryption.WrongPassphraseRejected(data, code, Encryption.NormalizeSyncCode(code), e.salt, e.iv, e.now, p);
    ImportOfServedText(st1, code, now, Uploaded(data, e, p, false).value, thisDevice, p);
  }

  /** The validator as written lets `ßß-ßß` through to the lookup, which asks
      for the empty code; the corrected validator would have rejected it as
      malformed. */
  lemma SharpCodeReachesLookup(st: SyncState, now: int, reply: Gist.HttpReply, thisDevice: string, p: Encryption.Primitives)
    requires "" !in st.mappings
    ensures ImportFromSync(st, Encryption.SharpCode(), now, reply, thisDevice, p) == (Err(LookupFailed(UnknownCode)), st)
    ensures !Encryption.ValidateSyncCode(Encryption.SharpCode())
  {
    Encryption.AsWrittenAcceptsUnnormalisableCode();
  }
}
