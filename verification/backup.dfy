/** Local backups (src/services/backupService.js): the capped history of
    exports and imports, the auto-backup schedule, the checks on a chosen
    file, the filtering of an export, and the restore. The clock reading
    `Date.now()` is the parameter `now`; the history and the settings are
    the values localStorage would hold. */
module Backup {
  import opened Common
  import opened Dict
  import opened Model
  import Storage

  /** MAX_BACKUP_HISTORY. */
  const MaxHistory: nat := 20

  const DayMs: int := 24 * 60 * 60 * 1000

  /** 50 MB, the largest file the picker accepts. */
  const MaxFileSize: int := 50 * 1024 * 1024

  // ---------------------------------------------------------------------
  // History
  // ---------------------------------------------------------------------

  datatype EntryKind = Export | Import | OtherKind

  /** A history entry; `size` is missing when the source had none to record. */
  datatype HistoryEntry = HistoryEntry(kind: EntryKind, filename: string, size: Option<int>, timestamp: int)

  /** addToBackupHistory: the new entry goes first and the history is cut
      back to the newest MaxHistory entries. */
  function AddToHistory(history: seq<HistoryEntry>, kind: EntryKind, filename: string, size: Option<int>, now: int)
    : (r: seq<HistoryEntry>)
    ensures |r| == if |history| < MaxHistory then |history| + 1 else MaxHistory
    ensures r[0] == HistoryEntry(kind, filename, size, now)
    ensures forall i :: 1 <= i < |r| ==> r[i] == history[i - 1]
  {
    Take([HistoryEntry(kind, filename, size, now)] + history, MaxHistory)
  }

  /** The history never outgrows its cap, whatever is added. */
  lemma HistoryStaysCapped(history: seq<HistoryEntry>, kind: EntryKind, filename: string, size: Option<int>, now: int)
    requires |history| <= MaxHistory
    ensures |AddToHistory(history, kind, filename, size, now)| <= MaxHistory
    ensures |history| < MaxHistory ==> AddToHistory(history, kind, filename, size, now)[1..] == history
  {
    var r := AddToHistory(history, kind, filename, size, now);
    if |history| < MaxHistory {
      assert r[1..] == history;
    }
  }

  function IsKind(k: EntryKind): HistoryEntry -> bool {
    (e: HistoryEntry) => e.kind == k
  }

  /** `history.reduce((sum, h) => sum + (h.size || 0), 0)`. */
  function TotalSize(history: seq<HistoryEntry>): int {
    if |history| == 0 then 0 else history[0].size.GetOr(0) + TotalSize(history[1..])
  }

  lemma {:induction false} TotalSizeConcat(a: seq<HistoryEntry>, b: seq<HistoryEntry>)
    ensures TotalSize(a + b) == TotalSize(a) + TotalSize(b)
  {
    if |a| > 0 {
      assert (a + b)[0] == a[0] && (a + b)[1..] == a[1..] + b;
      TotalSizeConcat(a[1..], b);
    } else {
      assert a + b == b;
    }
  }

  /** The auto-backup frequency setting; any other string is `OtherFrequency`. */
  datatype Frequency = Daily | Weekly | Monthly | OtherFrequency

  /** The backup settings; `lastAutoBackup` and `lastRestore` are missing
      until the first automatic backup and the first restore. */
  datatype BackupSettings = BackupSettings(
    autoBackup: bool,
    backupFrequency: Frequency,
    lastAutoBackup: Option<int>,
    includeJournal: bool,
    includeReminders: bool,
    lastRestore: Option<int>)

  /** getBackupSettings with nothing stored. */
  const DefaultSettings := BackupSettings(false, Weekly, None, true, true, None)

  /** The interval of a known frequency: one, seven or thirty days. */
  function Interval(f: Frequency): (r: Option<int>)
    ensures r.None? <==> f == OtherFrequency
    ensures f == Daily ==> r == Some(DayMs)
    ensures f == Weekly ==> r == Some(7 * DayMs)
    ensures f == Monthly ==> r == Some(30 * DayMs)
  {
    match f
    case Daily => Some(24 * 60 * 60 * 1000)
    case Weekly => Some(7 * 24 * 60 * 60 * 1000)
    case Monthly => Some(30 * 24 * 60 * 60 * 1000)
    case OtherFrequency => None
  }

  /** `settings.lastAutoBackup` is truthy: present and not 0. */
  predicate HasLastAutoBackup(s: BackupSettings) {
    s.lastAutoBackup.Some? && s.lastAutoBackup.value != 0
  }

  /** isAutoBackupDue: off when disabled; due at once when enabled with no
      earlier automatic backup; otherwise due when strictly more than the
      frequency's interval has passed, and never for an unknown frequency. */
  function IsAutoBackupDue(s: BackupSettings, now: int): (due: bool)
    ensures !s.autoBackup ==> !due
    ensures s.autoBackup && !HasLastAutoBackup(s) ==> due
    ensures s.backupFrequency == OtherFrequency && HasLastAutoBackup(s) ==> !due
    ensures s.autoBackup && HasLastAutoBackup(s) && s.backupFrequency != OtherFrequency ==>
      (due <==> now - s.lastAutoBackup.value > Interval(s.backupFrequency).value)
  {
    if !s.autoBackup || !HasLastAutoBackup(s) then s.autoBackup
    else
      var elapsed := now - s.lastAutoBackup.value;
      match s.backupFrequency
      case Daily => elapsed > 24 * 60 * 60 * 1000
      case Weekly => elapsed > 7 * 24 * 60 * 60 * 1000
      case Monthly => elapsed > 30 * 24 * 60 * 60 * 1000
      case OtherFrequency => false
  }

  /** getNextAutoBackupTime: the last automatic backup plus the interval, or
      none when auto-backup is off, has not run, or has an unknown frequency. */
  function NextAutoBackupTime(s: BackupSettings): (r: Option<int>)
    ensures r.Some? <==> s.autoBackup && HasLastAutoBackup(s) && s.backupFrequency != OtherFrequency
    ensures r.Some? ==> r.value > s.lastAutoBackup.value
  {
    if !s.autoBackup || !HasLastAutoBackup(s) then None
    else
      match Interval(s.backupFrequency)
      case None => None
      case Some(interval) => Some(s.lastAutoBackup.value + interval)
  }

  /** The two agree: once a next time is known, a backup is due exactly after it. */
  lemma DueExactlyAfterNextTime(s: BackupSettings, now: int)
    requires NextAutoBackupTime(s).Some?
    ensures IsAutoBackupDue(s, now) <==> now > NextAutoBackupTime(s).value
  {
  }

  /** The statistics getBackupStats reports. */
  datatype BackupStats = BackupStats(
    totalBackups: nat,
    totalRestores: nat,
    lastBackup: Option<int>,
    lastRestore: Option<int>,
    autoBackupEnabled: bool,
    nextAutoBackup: Option<int>,
    totalSize: int)

  /** `entries[0]?.timestamp || null`. */
  function FirstTimestamp(entries: seq<HistoryEntry>): (r: Option<int>)
    ensures r.Some? ==> |entries| > 0 && r.value == entries[0].timestamp && r.value != 0
    ensures |entries| > 0 && entries[0].timestamp != 0 ==> r.Some?
  {
    if |entries| > 0 && entries[0].timestamp != 0 then Some(entries[0].timestamp) else None
  }

  /** getBackupStats: exports and imports counted apart, the newest of each
      taken from the front of the history, sizes summed with a missing size
      as 0. */
  function GetBackupStats(history: seq<HistoryEntry>, s: BackupSettings): (r: BackupStats)
    ensures r.totalBackups == |Filter(IsKind(Export), history)|
    ensures r.totalRestores == |Filter(IsKind(Import), history)|
    ensures r.lastBackup.Some? ==> exists e | e in history :: e.kind == Export && e.timestamp == r.lastBackup.value
    ensures (forall e | e in history :: e.kind != Export) ==> r.lastBackup.None? && r.totalBackups == 0
    ensures (forall e | e in history :: e.kind != Import) ==> r.lastRestore.None? && r.totalRestores == 0
    ensures forall i | 0 <= i < |history| && history[i].kind == Export && (forall j | 0 <= j < i :: history[j].kind != Export) ::
      r.lastBackup == (if history[i].timestamp != 0 then Some(history[i].timestamp) else None)
    ensures forall i | 0 <= i < |history| && history[i].kind == Import && (forall j | 0 <= j < i :: history[j].kind != Import) ::
      r.lastRestore == (if history[i].timestamp != 0 then Some(history[i].timestamp) else None)
    ensures r.autoBackupEnabled == s.autoBackup && r.nextAutoBackup == NextAutoBackupTime(s)
    ensures r.totalSize == TotalSize(history)
  {
    FilterHead(IsKind(Export), history);
    FilterHead(IsKind(Import), history);
    var exports := Filter(IsKind(Export), history);
    var imports := Filter(IsKind(Import), history);
    BackupStats(|exports|, |imports|, FirstTimestamp(exports), FirstTimestamp(imports),
      s.autoBackup, NextAutoBackupTime(s), TotalSize(history))
  }

  /** Recording an export at a non-zero time makes it the last backup; while
      the history has room it adds one backup and its size to the totals. */
  lemma ExportShowsInStats(history: seq<HistoryEntry>, s: BackupSettings, filename: string, size: Option<int>, now: int)
    requires now != 0
    ensures var after := GetBackupStats(AddToHistory(history, Export, filename, size, now), s);
      after.lastBackup == Some(now)
    ensures |history| < MaxHistory ==>
      var before := GetBackupStats(history, s);
      var after := GetBackupStats(AddToHistory(history, Export, filename, size, now), s);
      after.totalBackups == before.totalBackups + 1 && after.totalRestores == before.totalRestores
      && after.totalSize == before.totalSize + size.GetOr(0)
  {
    var e := HistoryEntry(Export, filename, size, now);
    var r := AddToHistory(history, Export, filename, size, now);
    FilterConcat(IsKind(Export), [e], r[1..]);
    assert r == [e] + r[1..];
    if |history| < MaxHistory {
      assert r[1..] == history;
      FilterConcat(IsKind(Import), [e], history);
      TotalSizeConcat([e], history);
    }
  }

  /** An export and an import partition a history holding only those two
      kinds: the counts add up to its length. */
  lemma {:induction false} CountsPartition(history: seq<HistoryEntry>)
    requires forall e | e in history :: e.kind != OtherKind
    ensures |Filter(IsKind(Export), history)| + |Filter(IsKind(Import), history)| == |history|
  {
    if |history| > 0 {
      assert history == [history[0]] + history[1..];
      FilterConcat(IsKind(Export), [history[0]], history[1..]);
      FilterConcat(IsKind(Import), [history[0]], history[1..]);
      CountsPartition(history[1..]);
    }
  }

  // ---------------------------------------------------------------------
  // Files
  // ---------------------------------------------------------------------

  /** The parts of a `File` the checks read. */
  datatype FileInfo = FileInfo(name: string, size: nat)

  datatype FileError = NoFile | NotJson | TooLarge | EmptyFile

  datatype Validation = Validation(isValid: bool, errors: seq<FileError>)

  predicate EndsWithJson(name: string) {
    |name| >= 5 && name[|name| - 5..] == ".json"
  }

  /** validateBackupFile: no file is the one error; otherwise a name not
      ending in `.json`, a size over 50 MB and a size of 0 each add their
      error, in that order. Valid exactly when nothing was found. */
  function ValidateBackupFile(file: Option<FileInfo>): (v: Validation)
    ensures v.isValid <==> v.errors == []
    ensures file.None? ==> v.errors == [NoFile]
    ensures file.Some? ==>
      NoFile !in v.errors
      && (NotJson in v.errors <==> !EndsWithJson(file.value.name))
      && (TooLarge in v.errors <==> file.value.size > MaxFileSize)
      && (EmptyFile in v.errors <==> file.value.size == 0)
    ensures NoDups(v.errors) && |v.errors| <= 2
  {
    var errors :=
      if file.None? then [NoFile]
      else
        (if !EndsWithJson(file.value.name) then [NotJson] else [])
        + (if file.value.size > MaxFileSize then [TooLarge] else [])
        + (if file.value.size == 0 then [EmptyFile] else []);
    Validation(|errors| == 0, errors)
  }

  datatype ImportError = NoFileProvided | InvalidFileType | ReadFailed

  /** The checks importBackup makes before reading the file: a file must be
      given and its name must end in `.json`. */
  function ImportPrecheck(file: Option<FileInfo>): (r: Result<FileInfo, ImportError>)
    ensures file.None? ==> r == Err(NoFileProvided)
    ensures file.Some? ==> (r.Ok? <==> EndsWithJson(file.value.name))
    ensures r.Ok? ==> file == Some(r.value)
  {
    match file
    case None => Err(NoFileProvided)
    case Some(f) => if EndsWithJson(f.name) then Ok(f) else Err(InvalidFileType)
  }

  /** A file the picker validated passes importBackup's own checks, and a
      file those checks reject is one the picker flags too. */
  lemma ValidatedFilesPassImport(file: Option<FileInfo>)
    ensures ValidateBackupFile(file).isValid ==> ImportPrecheck(file).Ok?
    ensures ImportPrecheck(file).Err? ==> !ValidateBackupFile(file).isValid
  {
  }

  // ---------------------------------------------------------------------
  // Export filtering and restore
  // ---------------------------------------------------------------------

  /** A day's record without its journal. */
  function WithoutJournal(d: DayRecord): DayRecord {
    d.(journal := None)
  }

  /** The day records, same dates in the same order, each without a journal. */
  function StripJournals(days: DailyData): (r: DailyData)
    ensures Keys(r) == Keys(days)
    ensures |r| == |days| && forall i :: 0 <= i < |days| ==> r[i].1.journal.None? && r[i].1 == days[i].1.(journal := None)
  {
    seq(|days|, i requires 0 <= i < |days| => (days[i].0, WithoutJournal(days[i].1)))
  }

  /** exportBackup's shaping of the exported data: without the journal
      option every date is kept and only the journals go (data without day
      records gains an empty set of them); without the reminders option the
      reminders go; the backup metadata records the kind `local_backup`, format version
      `1.0.0`, the time and both options. */
  function FilterExport(data: Snapshot, includeJournal: bool, includeReminders: bool, now: int): (r: Snapshot)
    ensures r.activities == data.activities && r.settings == data.settings
    ensures r.exportDate == data.exportDate && r.version == data.version && r.syncMetadata == data.syncMetadata
    ensures includeJournal ==> r.dailyData == data.dailyData
    ensures !includeJournal ==> r.dailyData.Some? && Keys(r.dailyData.value) == Keys(data.dailyData.GetOr([]))
    ensures !includeJournal ==> forall k :: Get(r.dailyData.value, k) == MapDay(Get(data.dailyData.GetOr([]), k))
    ensures r.reminders == if includeReminders then data.reminders else None
    ensures r.backupMetadata.Some? && r.backupMetadata.value.kind == "local_backup" && r.backupMetadata.value.version == "1.0.0"
    ensures r.backupMetadata.Some? && r.backupMetadata.value.timestamp == now
    ensures r.backupMetadata.Some? && r.backupMetadata.value.includeJournal == includeJournal
      && r.backupMetadata.value.includeReminders == includeReminders
  {
    var days := if includeJournal then data.dailyData else Some(StripJournals(data.dailyData.GetOr([])));
    StripJournalsGet(data.dailyData.GetOr([]));
    data.(dailyData := days,
          reminders := if includeReminders then data.reminders else None,
          backupMetadata := Some(BackupMetadata(LocalBackupKind, BackupFormatVersion, now, includeJournal, includeReminders)))
  }

  function MapDay(d: Option<DayRecord>): Option<DayRecord> {
    match d
    case Some(r) => Some(WithoutJournal(r))
    case None => None
  }

  lemma StripJournalsGet(days: DailyData)
    ensures forall k :: Get(StripJournals(days), k) == MapDay(Get(days, k))
  {
    var r := StripJournals(days);
    forall k
      ensures Get(r, k) == MapDay(Get(days, k))
    {
      var i := IndexOf(Keys(days), k);
      if i >= 0 {
        assert Keys(r)[i] == k;
      }
    }
  }

  datatype BackupExportError = AssignedOnText

  /** `data.<member> = ...`: an object takes the update; a string primitive
      throws a TypeError, module code being strict. */
  function AssignMember(v: Exported, update: Snapshot -> Snapshot): (r: Result<Exported, BackupExportError>)
    ensures r.Err? <==> v.AsText?
    ensures r.Ok? ==> r.value == AsObject(update(v.obj))
  {
    match v
    case AsText(_) => Err(AssignedOnText)
    case AsObject(d) => Ok(AsObject(update(d)))
  }

  /** `delete data.<member>`: a string has no such member and stays as it is. */
  function DeleteMember(v: Exported, update: Snapshot -> Snapshot): (r: Exported)
    ensures v.AsText? ==> r == v
    ensures v.AsObject? ==> r == AsObject(update(v.obj))
  {
    match v
    case AsText(_) => v
    case AsObject(d) => AsObject(update(d))
  }

  /** `data.dailyData || {}`: a string has no `dailyData`. */
  function DaysOf(v: Exported): DailyData {
    match v
    case AsText(_) => []
    case AsObject(d) => d.dailyData.GetOr([])
  }

  /** The steps of exportBackup after exportData, on the value it answered:
      replace the day records by journal-free ones unless journals are
      included, delete the reminders unless included, attach the backup
      metadata, then write the file and record it in the history. A throw
      anywhere answers failure and records nothing. `size` is the byte size
      of the file's text and `filename` the chosen or generated name. */
  function ExportBackupFrom(v: Exported, includeJournal: bool, includeReminders: bool, filename: string, size: int,
                            history: seq<HistoryEntry>, now: int): (r: (Result<Snapshot, BackupExportError>, seq<HistoryEntry>))
    ensures r.0.Err? ==> r.1 == history
    ensures r.0.Ok? ==> r.1 == AddToHistory(history, Export, filename, Some(size), now)
    ensures v.AsText? ==> r.0.Err?
  {
    var journaled := if includeJournal then Ok(v) else AssignMember(v, (d: Snapshot) => d.(dailyData := Some(StripJournals(DaysOf(v)))));
    match journaled
    case Err(e) => (Err(e), history)
    case Ok(v1) =>
      var v2 := if includeReminders then v1 else DeleteMember(v1, (d: Snapshot) => d.(reminders := None));
      match AssignMember(v2, (d: Snapshot) => d.(backupMetadata := Some(BackupMetadata(LocalBackupKind, BackupFormatVersion, now, includeJournal, includeReminders))))
      case Err(e) => (Err(e), history)
      case Ok(v3) => (Ok(Spread(v3)), AddToHistory(history, Export, filename, Some(size), now))
  }

  /** exportBackup as written: exportData answers text. */
  function ExportBackupAsWritten(s: Storage.StoredData, exportDate: string, j: Storage.Json,
                                 includeJournal: bool, includeReminders: bool, filename: string, size: int,
                                 history: seq<HistoryEntry>, now: int): (r: (Result<Snapshot, BackupExportError>, seq<HistoryEntry>))
  {
    ExportBackupFrom(AsText(Storage.ExportData(s, exportDate, j)), includeJournal, includeReminders, filename, size, history, now)
  }

  /** exportBackup corrected to work on the export object: the file holds the
      filtered export and the history gains the export. */
  function ExportBackup(s: Storage.StoredData, exportDate: string,
                        includeJournal: bool, includeReminders: bool, filename: string, size: int,
                        history: seq<HistoryEntry>, now: int): (r: (Result<Snapshot, BackupExportError>, seq<HistoryEntry>))
    ensures r.0 == Ok(FilterExport(Storage.ExportSnapshot(s, exportDate), includeJournal, includeReminders, now))
    ensures r.1 == AddToHistory(history, Export, filename, Some(size), now)
  {
    ExportBackupFrom(AsObject(Storage.ExportSnapshot(s, exportDate)), includeJournal, includeReminders, filename, size, history, now)
  }

  /** As written, every backup export fails, whatever the options, and
      leaves the history alone: the metadata is assigned on a string. */
  lemma ExportBackupAsWrittenFails(s: Storage.StoredData, exportDate: string, j: Storage.Json,
                                   includeJournal: bool, includeReminders: bool, filename: string, size: int,
                                   history: seq<HistoryEntry>, now: int)
    ensures ExportBackupAsWritten(s, exportDate, j, includeJournal, includeReminders, filename, size, history, now)
      == (Err(AssignedOnText), history)
  {
  }

  /** applyBackup as written: the object goes to importData, whose `JSON.parse`
      sees `[object Object]`. */
  function ApplyBackupAsWritten(data: Snapshot, stored: Storage.StoredData, writable: bool,
                                settings: BackupSettings, now: int, j: Storage.Json): (r: (bool, Storage.StoredData, BackupSettings))
    ensures (r.0, r.1) == Storage.ImportValue(AsObject(data.(backupMetadata := None)), stored, writable, j)
    ensures r.2 == if r.0 then settings.(lastRestore := Some(now)) else settings
  {
    var imported := Storage.ImportValue(AsObject(data.(backupMetadata := None)), stored, writable, j);
    (imported.0, imported.1, if imported.0 then settings.(lastRestore := Some(now)) else settings)
  }

  /** As written, a restore never writes anything, answers false and records
      no restore time; the corrected restore imports the backup's JSON text. */
  lemma RestoreAsWrittenFails(data: Snapshot, stored: Storage.StoredData, writable: bool,
                              settings: BackupSettings, now: int, j: Storage.Json)
    requires Storage.JsonSound(j)
    ensures ApplyBackupAsWritten(data, stored, writable, settings, now, j) == (false, stored, settings)
    ensures (ApplyBackup(data, stored, writable, settings, now).0, ApplyBackup(data, stored, writable, settings, now).1)
      == Storage.ImportValue(AsText(j.stringify(data.(backupMetadata := None))), stored, writable, j)
  {
    Storage.ObjectImportRejected(data.(backupMetadata := None), stored, writable, j);
    Storage.ImportOfStringified(data.(backupMetadata := None), stored, writable, j);
  }

  /** applyBackup: the snapshot less its backup metadata is imported; a
      successful import records `now` as the last restore, a failed one
      leaves the settings alone. Answered with the import's outcome, the
      stored data and the backup settings. */
  function ApplyBackup(data: Snapshot, stored: Storage.StoredData, writable: bool,
                       settings: BackupSettings, now: int): (r: (bool, Storage.StoredData, BackupSettings))
    ensures (r.0, r.1) == Storage.ImportData(data.(backupMetadata := None), stored, writable)
    ensures r.2 == if r.0 then settings.(lastRestore := Some(now)) else settings
  {
    var imported := Storage.ImportData(data.(backupMetadata := None), stored, writable);
    (imported.0, imported.1, if imported.0 then settings.(lastRestore := Some(now)) else settings)
  }

  /** A full backup restores what was exported: exporting the stored data
      with both options on and applying the backup brings the stored data
      back and records the restore. */
  lemma BackupRestoreRoundTrip(s: Storage.StoredData, before: Storage.StoredData, exportDate: string,
                               filename: string, size: int, history: seq<HistoryEntry>,
                               settings: BackupSettings, exportedAt: int, now: int)
    ensures var data := ExportBackup(s, exportDate, true, true, filename, size, history, exportedAt).0.value;
      ApplyBackup(data, before, true, settings, now) == (true, s, settings.(lastRestore := Some(now)))
  {
    var plain := Storage.ExportSnapshot(s, exportDate);
    var data := FilterExport(plain, true, true, exportedAt);
    assert data.(backupMetadata := None) == plain;
    Storage.ExportImportRoundTrip(s, before, exportDate);
  }

  /** Leaving the journal out of an export loses exactly the journals: the
      restored day records are the exported ones without their journals. */
  lemma JournalFreeRestore(s: Storage.StoredData, before: Storage.StoredData, exportDate: string,
                           filename: string, size: int, history: seq<HistoryEntry>,
                           settings: BackupSettings, exportedAt: int, now: int)
    ensures var data := ExportBackup(s, exportDate, false, true, filename, size, history, exportedAt).0.value;
      var restored := ApplyBackup(data, before, true, settings, now).1;
      restored.activities == s.activities && restored.settings == s.settings
      && restored.dailyData == StripJournals(s.dailyData)
  {
  }
}
