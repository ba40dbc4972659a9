/** The persisted application data and the snapshot export/import of
    src/utils/storage.js. localStorage is the value `StoredData`; a write the
    browser refuses (a full quota) is the parameter `writable`.

    exportData answers JSON text and importData parses its argument as JSON
    text. `ImportData` is the import of the parsed object; `ImportValue` is
    importData on whatever value a caller hands it, text or object. */
module Storage {
  import opened Common
  import opened Model

  datatype StoredData = StoredData(activities: seq<Activity>, dailyData: DailyData, settings: Settings)

  /** exportData: the three stores with the export date and version `1.0.0`;
      reminders and metadata are not part of it. */
  function ExportSnapshot(s: StoredData, exportDate: string): (d: Snapshot)
    ensures d.activities == Some(s.activities) && d.dailyData == Some(s.dailyData) && d.settings == Some(s.settings)
    ensures d.reminders.None? && d.syncMetadata.None? && d.backupMetadata.None?
    ensures d.version == Some("1.0.0")
  {
    Snapshot(Some(s.activities), Some(s.dailyData), Some(s.settings), None, Some(exportDate), Some("1.0.0"), None, None, "")
  }

  /** importData: each present part is written. The activities and settings
      writes swallow a refused write; a refused write of the day records is
      thrown, which makes the import answer false after the activities were
      (or were not) written and before the settings are reached. */
  function ImportData(d: Snapshot, s: StoredData, writable: bool): (r: (bool, StoredData))
    ensures writable ==> r.0
    ensures writable ==> r.1 == StoredData(
      d.activities.GetOr(s.activities), d.dailyData.GetOr(s.dailyData), d.settings.GetOr(s.settings))
    ensures !writable ==> r.1 == s
    ensures !r.0 <==> !writable && d.dailyData.Some?
  {
    var afterActivities := if d.activities.Some? && writable then s.(activities := d.activities.value) else s;
    if d.dailyData.Some? && !writable then (false, afterActivities)
    else
      var afterDays := if d.dailyData.Some? then afterActivities.(dailyData := d.dailyData.value) else afterActivities;
      var afterSettings := if d.settings.Some? && writable then afterDays.(settings := d.settings.value) else afterDays;
      (true, afterSettings)
  }

  /** `JSON.stringify` (indented by two) and `JSON.parse` over snapshots. */
  datatype Json = Json(stringify: Snapshot -> string, parse: string -> Option<Snapshot>)

  /** The text `JSON.parse` sees when handed an object: `String({})`. */
  const ObjectText := "[object Object]"

  /** What the JSON standard promises of the pair: parsing gives back what was
      stringified, and `[object Object]` is not JSON text (`[` opens an array
      whose first element cannot start with `o`). */
  ghost predicate JsonSound(j: Json) {
    && (forall d :: j.parse(j.stringify(d)) == Some(d))
    && j.parse(ObjectText).None?
  }

  /** exportData: the JSON text of the export snapshot. */
  function ExportData(s: StoredData, exportDate: string, j: Json): (t: string)
    ensures JsonSound(j) ==> j.parse(t) == Some(ExportSnapshot(s, exportDate))
  {
    j.stringify(ExportSnapshot(s, exportDate))
  }

  /** importData on the value a caller passes: `JSON.parse` turns its argument
      into text first (an object becomes `[object Object]`); text that does
      not parse is caught and answered false with nothing written. */
  function ImportValue(v: Exported, s: StoredData, writable: bool, j: Json): (r: (bool, StoredData))
    ensures var text := if v.AsText? then v.text else ObjectText;
      && (j.parse(text).None? ==> r == (false, s))
      && (j.parse(text).Some? ==> r == ImportData(j.parse(text).value, s, writable))
  {
    var text := match v case AsText(t) => t case AsObject(_) => ObjectText;
    match j.parse(text)
    case None => (false, s)
    case Some(d) => ImportData(d, s, writable)
  }

  /** Handing importData an object, as written, imports nothing and answers false. */
  lemma ObjectImportRejected(d: Snapshot, s: StoredData, writable: bool, j: Json)
    requires JsonSound(j)
    ensures ImportValue(AsObject(d), s, writable, j) == (false, s)
  {
  }

  /** Importing the JSON text of an object is importing the object: `ImportData`
      is importData as its object-passing callers evidently meant it. */
  lemma ImportOfStringified(d: Snapshot, s: StoredData, writable: bool, j: Json)
    requires JsonSound(j)
    ensures ImportValue(AsText(j.stringify(d)), s, writable, j) == ImportData(d, s, writable)
  {
  }

  /** The text round trip the settings screen performs: importing exported text
      restores exactly the exported data, whatever was stored before. */
  lemma TextExportImportRoundTrip(s: StoredData, before: StoredData, exportDate: string, j: Json)
    requires JsonSound(j)
    ensures ImportValue(AsText(ExportData(s, exportDate, j)), before, true, j) == (true, s)
  {
    ExportImportRoundTrip(s, before, exportDate);
  }

  /** Importing an export restores exactly the exported data, whatever was stored before. */
  lemma ExportImportRoundTrip(s: StoredData, before: StoredData, exportDate: string)
    ensures ImportData(ExportSnapshot(s, exportDate), before, true) == (true, s)
  {
  }

  /** Parts missing from the snapshot are left as they were. */
  lemma ImportKeepsMissingParts(d: Snapshot, s: StoredData, writable: bool)
    ensures d.activities.None? ==> ImportData(d, s, writable).1.activities == s.activities
    ensures d.dailyData.None? ==> ImportData(d, s, writable).1.dailyData == s.dailyData
    ensures d.settings.None? ==> ImportData(d, s, writable).1.settings == s.settings
  {
  }
}
