/** The entities the application keeps and exchanges between devices. The
    source stores them as untyped JSON; here each is a datatype whose
    optional members are `Option`s. */
module Model {
  import opened Common
  import opened Dict

  type Id = string

  /** A calendar date key, `yyyy-mm-dd`. */
  type DateKey = string

  /** The value of an activity's `activeDays` member, by how the code branches on it. */
  datatype ActiveDays =
    | Unset             // absent, or any falsy value (`undefined`, `null`, `''`, `0`, `false`)
    | All               // the string 'all'
    | Days(days: seq<string>)  // an array (truthy even when empty)
    | Other             // any other truthy value

  datatype Activity = Activity(
    id: Id,
    name: string,
    order: Option<int>,
    activeDays: ActiveDays,
    lastModified: Option<int>)

  /** One date's record. A record read without a `completed` list is taken
      as carrying the empty list. */
  datatype DayRecord = DayRecord(
    completed: seq<Id>,
    notes: string,
    journal: Option<string>,
    mood: Option<string>,
    energy: Option<int>,
    lastModified: Option<int>)

  /** The record the stores use for a date that has none yet: `{completed: [], notes: ''}`. */
  const EmptyDay := DayRecord([], "", None, None, None, None)

  /** `labelText` is the member `label` (a reserved word here). */
  datatype Reminder = Reminder(id: Id, labelText: string, time: string, enabled: bool, message: string)

  datatype SettingValue = Flag(flag: bool) | Text(text: string) | Number(number: int)

  type Settings = map<string, SettingValue>

  /** Day records keyed by date, in the insertion order of the JavaScript object. */
  type DailyData = Dict<DateKey, DayRecord>

  datatype SyncMetadata = SyncMetadata(deviceInfo: string, exportedAt: int, checksum: string)

  /** The `backupMetadata` member of a backup file: its `type` (kept here as
      `kind`), format version, creation time and the two export options. */
  datatype BackupMetadata = BackupMetadata(kind: string, version: string, timestamp: int,
                                           includeJournal: bool, includeReminders: bool)

  /** The `type` every local backup file carries. */
  const LocalBackupKind := "local_backup"

  /** The backup format version every local backup file carries. */
  const BackupFormatVersion := "1.0.0"

  /** The object exchanged between devices and written to backup files.
      `indexChars` are the members `"0"`, `"1"`, ... that spreading a string
      into an object creates, one per character; every object the program
      builds from its stores has none. */
  datatype Snapshot = Snapshot(
    activities: Option<seq<Activity>>,
    dailyData: Option<DailyData>,
    settings: Option<Settings>,
    reminders: Option<seq<Reminder>>,
    exportDate: Option<string>,
    version: Option<string>,
    syncMetadata: Option<SyncMetadata>,
    backupMetadata: Option<BackupMetadata>,
    indexChars: string)

  /** The object with no members, `{}`. */
  const EmptyObject := Snapshot(None, None, None, None, None, None, None, None, "")

  /** A value handed to or received from exportData/importData: the JSON text
      of a snapshot, or the snapshot object itself. */
  datatype Exported = AsText(text: string) | AsObject(obj: Snapshot)

  /** `{...v}`: an object's members are copied; a string gives one member per character. */
  function Spread(v: Exported): (r: Snapshot)
    ensures v.AsObject? ==> r == v.obj
    ensures v.AsText? ==> r.indexChars == v.text && r.(indexChars := "") == EmptyObject
  {
    match v
    case AsObject(d) => d
    case AsText(t) => EmptyObject.(indexChars := t)
  }

  /** The strategy strings the merge and apply functions switch on. */
  datatype Strategy = Replace | Local | Skip | Merge | Unrecognised

  function ActivityId(a: Activity): Id { a.id }

  function ActivityIds(acts: seq<Activity>): (ids: seq<Id>)
    ensures |ids| == |acts|
    ensures forall i :: 0 <= i < |acts| ==> ids[i] == acts[i].id
  {
    seq(|acts|, i requires 0 <= i < |acts| => acts[i].id)
  }

  /** Identity is by `id`: no two activities of a list share one. */
  predicate UniqueIds(acts: seq<Activity>) {
    forall i, j :: 0 <= i < j < |acts| ==> acts[i].id != acts[j].id
  }

  /** The member `order` holds position `i` for every activity: `order` is dense 0..n-1. */
  predicate DenseOrder(acts: seq<Activity>) {
    forall i :: 0 <= i < |acts| ==> acts[i].order == Some(i)
  }

  /** `acts.map((a, index) => ({...a, order: index}))`. */
  function Renumber(acts: seq<Activity>): (r: seq<Activity>)
    ensures |r| == |acts|
    ensures DenseOrder(r)
    ensures forall i :: 0 <= i < |r| ==> r[i] == acts[i].(order := Some(i))
  {
    seq(|acts|, i requires 0 <= i < |acts| => acts[i].(order := Some(i)))
  }
}
