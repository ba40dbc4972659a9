/** The sync merge engine (src/utils/mergeData.js): per-domain merge rules,
    the strategy dispatch, and the dry-run change counter. `Date.now()` is
    the parameter `now`; `JSON.stringify(a) !== JSON.stringify(b)` is
    inequality of the modelled values. */
module Merge {
  import opened Common
  import opened Dict
  import opened Model
  import Sorting

  /** The strategy switch every domain merge starts with: `replace` answers
      `remote`, `local` answers `local`, every other value merges. */
  predicate Merges(strategy: Strategy) {
    strategy != Replace && strategy != Local
  }

  // ---------------------------------------------------------------------
  // Activities

  /** The sort key `a.order || 0`. */
  function OrderKey(a: Activity): int {
    a.order.GetOr(0)
  }

  /** The incoming copy replaces the stored one when `remote.lastModified || now`
      is at least `existing.lastModified || 0`. */
  predicate RemoteWins(existing: Activity, incoming: Activity, now: int) {
    TimeOr(incoming.lastModified, now) >= TimeOr(existing.lastModified, 0)
  }

  /** One step of the remote pass of mergeActivities. */
  function AddRemoteActivity(m: Dict<Id, Activity>, a: Activity, now: int): (r: Dict<Id, Activity>)
    ensures Keys(r) == if a.id in Keys(m) then Keys(m) else Keys(m) + [a.id]
  {
    match Get(m, a.id)
    case None => Put(m, a.id, a)
    case Some(existing) => if RemoteWins(existing, a, now) then Put(m, a.id, a) else m
  }

  function AddRemoteActivities(m: Dict<Id, Activity>, remote: seq<Activity>, now: int): (r: Dict<Id, Activity>)
    ensures Wf(m) ==> Wf(r)
    decreases |remote|
  {
    if |remote| == 0 then m
    else AddRemoteActivities(AddRemoteActivity(m, remote[0], now), remote[1..], now)
  }

  /** The remote pass files every activity under its own id. */
  lemma {:induction false} AddRemoteKeyed(m: Dict<Id, Activity>, remote: seq<Activity>, now: int)
    requires KeyedBy(m, ActivityId)
    ensures KeyedBy(AddRemoteActivities(m, remote, now), ActivityId)
    decreases |remote|
  {
    if |remote| > 0 {
      PutKeyed(m, remote[0], ActivityId);
      AddRemoteKeyed(AddRemoteActivity(m, remote[0], now), remote[1..], now);
    }
  }

  /** The `Map` mergeActivities fills: local activities first, then the remote pass. */
  function ActivityMap(local: seq<Activity>, remote: seq<Activity>, now: int): (m: Dict<Id, Activity>)
    ensures Wf(m) && KeyedBy(m, ActivityId)
  {
    PutAllKeyed([], local, ActivityId);
    AddRemoteKeyed(PutAll([], local, ActivityId), remote, now);
    AddRemoteActivities(PutAll([], local, ActivityId), remote, now)
  }

  /** mergeActivities */
  function MergeActivities(local: seq<Activity>, remote: seq<Activity>, strategy: Strategy, now: int): (r: seq<Activity>)
    ensures strategy == Replace ==> r == remote
    ensures strategy == Local ==> r == local
    ensures Merges(strategy) ==> Sorting.SortedBy(r, OrderKey)
    ensures Merges(strategy) ==> multiset(r) == multiset(Values(ActivityMap(local, remote, now)))
  {
    if strategy == Replace then remote
    else if strategy == Local then local
    else Sorting.SortBy(Values(ActivityMap(local, remote, now)), OrderKey)
  }

  /** The activity that should end up under `id`: the last local one with
      that id, unless a remote one exists and is at least as recent. */
  function ActivityWinner(local: seq<Activity>, remote: seq<Activity>, id: Id, now: int): Option<Activity> {
    var l := LastWithKey(local, ActivityId, id);
    var r := LastWithKey(remote, ActivityId, id);
    if r.None? then l
    else if l.Some? && !RemoteWins(l.value, r.value, now) then l
    else r
  }

  lemma UniqueIdsTail(s: seq<Activity>)
    requires UniqueIds(s) && |s| > 0
    ensures UniqueIds(s[1..])
    ensures forall i :: 0 <= i < |s[1..]| ==> s[1..][i].id != s[0].id
  {
  }

  /** The remote pass, read back one id at a time. */
  lemma {:induction false} GetAddRemoteActivities(m: Dict<Id, Activity>, remote: seq<Activity>, now: int, id: Id)
    requires UniqueIds(remote)
    ensures Get(AddRemoteActivities(m, remote, now), id) ==
      var r := LastWithKey(remote, ActivityId, id);
      if r.None? then Get(m, id)
      else if Get(m, id).Some? && !RemoteWins(Get(m, id).value, r.value, now) then Get(m, id)
      else r
    decreases |remote|
  {
    if |remote| > 0 {
      var a := remote[0];
      var m' := AddRemoteActivity(m, a, now);
      UniqueIdsTail(remote);
      GetAddRemoteActivities(m', remote[1..], now, id);
      GetPut(m, a.id, a, id);
      if a.id == id {
        assert LastWithKey(remote[1..], ActivityId, id).None?;
      }
    }
  }

  /** An activity is in the merged list exactly when it is the winner for its id. */
  lemma MergeActivitiesMember(local: seq<Activity>, remote: seq<Activity>, strategy: Strategy, now: int, a: Activity)
    requires Merges(strategy) && UniqueIds(remote)
    ensures a in MergeActivities(local, remote, strategy, now) <==> ActivityWinner(local, remote, a.id, now) == Some(a)
  {
    var m := ActivityMap(local, remote, now);
    Sorting.SortByMembers(Values(m), OrderKey, a);
    ValuesMember(m, ActivityId, a);
    GetPutAll([], local, ActivityId, a.id);
    GetAddRemoteActivities(PutAll([], local, ActivityId), remote, now, a.id);
  }

  lemma IdOfMember(acts: seq<Activity>, a: Activity)
    requires a in acts
    ensures a.id in ActivityIds(acts)
  {
    var i :| 0 <= i < |acts| && acts[i] == a;
    assert ActivityIds(acts)[i] == a.id;
  }

  lemma MemberOfId(acts: seq<Activity>, id: Id)
    requires id in ActivityIds(acts)
    ensures LastWithKey(acts, ActivityId, id).Some?
  {
    var i :| 0 <= i < |acts| && ActivityIds(acts)[i] == id;
    assert ActivityId(acts[i]) == id;
  }

  /** The merged list holds exactly the ids of both sides. */
  lemma MergeActivitiesIds(local: seq<Activity>, remote: seq<Activity>, strategy: Strategy, now: int, id: Id)
    requires Merges(strategy) && UniqueIds(remote)
    ensures id in ActivityIds(MergeActivities(local, remote, strategy, now)) <==>
      id in ActivityIds(local) || id in ActivityIds(remote)
  {
    var r := MergeActivities(local, remote, strategy, now);
    var w := ActivityWinner(local, remote, id, now);
    if id in ActivityIds(r) {
      var i :| 0 <= i < |r| && ActivityIds(r)[i] == id;
      MergeActivitiesMember(local, remote, strategy, now, r[i]);
      if w.value in local { IdOfMember(local, w.value); } else { IdOfMember(remote, w.value); }
    }
    if id in ActivityIds(local) || id in ActivityIds(remote) {
      if id in ActivityIds(local) { MemberOfId(local, id); } else { MemberOfId(remote, id); }
      MergeActivitiesMember(local, remote, strategy, now, w.value);
      IdOfMember(r, w.value);
    }
  }

  /** No id occurs twice in the merged list. */
  lemma MergeActivitiesUnique(local: seq<Activity>, remote: seq<Activity>, strategy: Strategy, now: int)
    requires Merges(strategy)
    ensures UniqueIds(MergeActivities(local, remote, strategy, now))
  {
    var m := ActivityMap(local, remote, now);
    KeyedDistinct(m, ActivityId);
    Sorting.PermutationKeepsDistinct(Values(m), MergeActivities(local, remote, strategy, now), ActivityId);
  }

  // ---------------------------------------------------------------------
  // Day records

  /** `(d.lastModified || 0)` of the remote day exceeds that of the local one. */
  predicate RemoteNewer(local: DayRecord, remote: DayRecord) {
    TimeOr(remote.lastModified, 0) > TimeOr(local.lastModified, 0)
  }

  /** mergeCompletedActivities: `Array.from(new Set([...local, ...remote]))`. */
  function MergeCompletedActivities(local: seq<Id>, remote: seq<Id>): (r: seq<Id>)
    ensures NoDups(r)
    ensures forall id | id in r :: id in local || id in remote
    ensures forall id | id in local || id in remote :: id in r
  {
    Dedup(local + remote)
  }

  /** mergeDayData: the newer record (ties go to local) supplies every member
      but `completed`, which is the union of both lists. */
  function MergeDayData(local: DayRecord, remote: DayRecord): (d: DayRecord)
    ensures d.completed == MergeCompletedActivities(local.completed, remote.completed)
    ensures RemoteNewer(local, remote) ==> d.(completed := remote.completed) == remote
    ensures !RemoteNewer(local, remote) ==> d.(completed := local.completed) == local
  {
    var completed := MergeCompletedActivities(local.completed, remote.completed);
    if RemoteNewer(local, remote) then remote.(completed := completed) else local.(completed := completed)
  }

  lemma {:induction false} RemoveAllConcat(a: seq<Id>, b: seq<Id>, x: Id)
    requires x !in a
    ensures RemoveAll(a + b, x) == a + RemoveAll(b, x)
  {
    if |a| > 0 {
      assert (a + b)[1..] == a[1..] + b;
      RemoveAllConcat(a[1..], b, x);
    } else {
      assert a + b == b;
    }
  }

  /** The union keeps a duplicate-free local list in front, in its order. */
  lemma {:induction false} DedupKeepsPrefix(a: seq<Id>, b: seq<Id>)
    requires NoDups(a)
    ensures |Dedup(a + b)| >= |a| && Dedup(a + b)[..|a|] == a
  {
    if |a| > 0 {
      var x, rest := a[0], a[1..];
      DedupKeepsPrefix(rest, b);
      var t := Dedup(rest + b);
      var tail := t[|rest|..];
      assert t == rest + tail;
      DedupHead(a + b);
      assert (a + b)[1..] == rest + b;
      RemoveAllConcat(rest, tail, x);
      PrefixOfCons(x, rest, RemoveAll(tail, x));
    }
  }

  lemma DedupHead(s: seq<Id>)
    requires |s| > 0
    ensures Dedup(s) == [s[0]] + RemoveAll(Dedup(s[1..]), s[0])
  {
  }

  lemma PrefixOfCons(x: Id, a: seq<Id>, c: seq<Id>)
    ensures ([x] + (a + c))[..|a| + 1] == [x] + a
  {
  }

  /** Merging a day with itself changes nothing. */
  lemma MergeDayIdempotent(d: DayRecord)
    requires NoDups(d.completed)
    ensures MergeDayData(d, d) == d
  {
    var c := d.completed;
    var r := Dedup(c + c);
    DedupKeepsPrefix(c, c);
    NoDupsCard(r);
    NoDupsCard(c);
    assert (set x | x in r) == (set x | x in c);
    assert |r| == |c|;
    assert r == r[..|c|];
  }

  /** The fold of mergeDailyData over the remote entries; lookups go to the
      original local record, writes to the growing result. */
  function MergeDaysFrom(merged: DailyData, local: DailyData, remote: DailyData): (r: DailyData)
    ensures Wf(merged) ==> Wf(r)
    decreases |remote|
  {
    if |remote| == 0 then merged
    else
      var (k, day) := remote[0];
      var next := match Get(local, k)
        case None => day
        case Some(l) => MergeDayData(l, day);
      MergeDaysFrom(Put(merged, k, next), local, remote[1..])
  }

  /** mergeDailyData */
  function MergeDailyData(local: DailyData, remote: DailyData, strategy: Strategy): (r: DailyData)
    ensures strategy == Replace ==> r == remote
    ensures strategy == Local ==> r == local
    ensures Merges(strategy) && Wf(local) ==> Wf(r)
  {
    if strategy == Replace then remote
    else if strategy == Local then local
    else MergeDaysFrom(local, local, remote)
  }

  /** The record that should end up under a date: the remote one when only
      remote has it, the local one when only local has it, their merge when both do. */
  function DayWinner(local: DailyData, remote: DailyData, k: DateKey): Option<DayRecord> {
    match Get(remote, k)
    case None => Get(local, k)
    case Some(r) =>
      match Get(local, k)
      case None => Some(r)
      case Some(l) => Some(MergeDayData(l, r))
  }

  lemma {:induction false} GetMergeDaysFrom(merged: DailyData, local: DailyData, remote: DailyData, k: DateKey)
    requires Wf(remote)
    ensures Get(MergeDaysFrom(merged, local, remote), k) ==
      match Get(remote, k)
      case None => Get(merged, k)
      case Some(r) => (match Get(local, k) case None => Some(r) case Some(l) => Some(MergeDayData(l, r)))
    decreases |remote|
  {
    if |remote| > 0 {
      var (k0, day) := remote[0];
      assert remote == [(k0, day)] + remote[1..];
      GetCons(k0, day, remote[1..], k);
      var next := match Get(local, k0) case None => day case Some(l) => MergeDayData(l, day);
      GetMergeDaysFrom(Put(merged, k0, next), local, remote[1..], k);
      GetPut(merged, k0, next, k);
    }
  }

  /** Every date reads back its winner after the merge. */
  lemma MergeDailyDataGet(local: DailyData, remote: DailyData, strategy: Strategy, k: DateKey)
    requires Merges(strategy) && Wf(remote)
    ensures Get(MergeDailyData(local, remote, strategy), k) == DayWinner(local, remote, k)
    ensures k in Keys(MergeDailyData(local, remote, strategy)) <==> k in Keys(local) || k in Keys(remote)
  {
    GetMergeDaysFrom(local, local, remote, k);
  }

  // ---------------------------------------------------------------------
  // Settings

  /** mergeSettings: every remote key overrides, every other local key stays. */
  function MergeSettings(local: Settings, remote: Settings, strategy: Strategy): (r: Settings)
    ensures strategy == Replace ==> r == remote
    ensures strategy == Local ==> r == local
    ensures Merges(strategy) ==> r.Keys == local.Keys + remote.Keys
    ensures Merges(strategy) ==> forall k | k in remote :: r[k] == remote[k]
    ensures Merges(strategy) ==> forall k | k in local && k !in remote :: r[k] == local[k]
  {
    if strategy == Replace then remote
    else if strategy == Local then local
    else local + remote
  }

  /** Merging again with the same remote settings changes nothing. */
  lemma MergeSettingsIdempotent(local: Settings, remote: Settings, strategy: Strategy)
    requires Merges(strategy)
    ensures MergeSettings(MergeSettings(local, remote, strategy), remote, strategy) == MergeSettings(local, remote, strategy)
  {
  }

  // ---------------------------------------------------------------------
  // Reminders

  /** The key `${time}-${label}` reminders are merged and counted by. */
  function ReminderKey(r: Reminder): string {
    r.time + "-" + r.labelText
  }

  /** Pairwise distinct reminder keys. */
  predicate DistinctKeys(rs: seq<Reminder>) {
    forall i, j :: 0 <= i < j < |rs| ==> ReminderKey(rs[i]) != ReminderKey(rs[j])
  }

  /** mergeReminders: a missing list counts as empty; in a merge, one
      reminder per key survives, the last remote one carrying it when there
      is one, else the last local one. */
  function MergeReminders(local: Option<seq<Reminder>>, remote: Option<seq<Reminder>>, strategy: Strategy): (r: seq<Reminder>)
    ensures strategy == Replace ==> r == remote.GetOr([])
    ensures strategy == Local ==> r == local.GetOr([])
    ensures Merges(strategy) ==>
      forall x :: x in r <==> ReminderWinner(local.GetOr([]), remote.GetOr([]), ReminderKey(x)) == Some(x)
    ensures Merges(strategy) ==> DistinctKeys(r)
  {
    var l := local.GetOr([]);
    var rm := remote.GetOr([]);
    if strategy == Replace then rm
    else if strategy == Local then l
    else
      MergedReminders(l, rm);
      Values(ReminderMap(l, rm))
  }

  /** The values of the merge map are the winners, one per key. */
  lemma MergedReminders(l: seq<Reminder>, rm: seq<Reminder>)
    ensures forall x :: x in Values(ReminderMap(l, rm)) <==> ReminderWinner(l, rm, ReminderKey(x)) == Some(x)
    ensures DistinctKeys(Values(ReminderMap(l, rm)))
  {
    var m := ReminderMap(l, rm);
    forall x
      ensures x in Values(m) <==> ReminderWinner(l, rm, ReminderKey(x)) == Some(x)
    {
      ValuesMember(m, ReminderKey, x);
      GetPutAll(PutAll([], l, ReminderKey), rm, ReminderKey, ReminderKey(x));
      GetPutAll([], l, ReminderKey, ReminderKey(x));
    }
    KeyedDistinct(m, ReminderKey);
  }

  /** The `Map` mergeReminders fills. */
  function ReminderMap(local: seq<Reminder>, remote: seq<Reminder>): (m: Dict<string, Reminder>)
    ensures Wf(m) && KeyedBy(m, ReminderKey)
  {
    PutAllKeyed([], local, ReminderKey);
    PutAllKeyed(PutAll([], local, ReminderKey), remote, ReminderKey);
    PutAll(PutAll([], local, ReminderKey), remote, ReminderKey)
  }

  /** The reminder that should end up under a key: remote wins a clash. */
  function ReminderWinner(local: seq<Reminder>, remote: seq<Reminder>, k: string): Option<Reminder> {
    var r := LastWithKey(remote, ReminderKey, k);
    if r.Some? then r else LastWithKey(local, ReminderKey, k)
  }


  // ---------------------------------------------------------------------
  // Everything

  /** mergeAllData: `replace` answers the remote snapshot, `local` and `skip`
      the local one; otherwise every domain is merged (a missing part counts
      as empty), the remote export date and version win when non-empty, and
      the metadata of both sides is dropped. */
  function MergeAllData(local: Snapshot, remote: Snapshot, strategy: Strategy, now: int): (r: Snapshot)
    ensures strategy == Replace ==> r == remote
    ensures strategy == Local || strategy == Skip ==> r == local
    ensures strategy !in {Replace, Local, Skip} ==>
      && r.activities == Some(MergeActivities(local.activities.GetOr([]), remote.activities.GetOr([]), strategy, now))
      && r.dailyData == Some(MergeDailyData(local.dailyData.GetOr([]), remote.dailyData.GetOr([]), strategy))
      && r.settings == Some(MergeSettings(local.settings.GetOr(map[]), remote.settings.GetOr(map[]), strategy))
      && r.reminders == Some(MergeReminders(local.reminders, remote.reminders, strategy))
      && r.exportDate == (if Truthy(remote.exportDate) then remote.exportDate else local.exportDate)
      && r.version == (if Truthy(remote.version) then remote.version else local.version)
      && r.syncMetadata.None? && r.backupMetadata.None?
  {
    if strategy == Replace then remote
    else if strategy == Local || strategy == Skip then local
    else
      Snapshot(
        Some(MergeActivities(local.activities.GetOr([]), remote.activities.GetOr([]), strategy, now)),
        Some(MergeDailyData(local.dailyData.GetOr([]), remote.dailyData.GetOr([]), strategy)),
        Some(MergeSettings(local.settings.GetOr(map[]), remote.settings.GetOr(map[]), strategy)),
        Some(MergeReminders(local.reminders, remote.reminders, strategy)),
        TextOr(remote.exportDate, local.exportDate),
        TextOr(remote.version, local.version),
        None, None, "")
  }

  // ---------------------------------------------------------------------
  // The dry run

  datatype Change = Added | Updated | Unchanged

  /** The `added`, `updated` and `unchanged` counters (`same` here: `unchanged` is a reserved word). */
  datatype Tally = Tally(added: nat, updated: nat, same: nat)

  datatype MergeChanges = MergeChanges(activities: Tally, dailyData: Tally, reminders: Tally)

  /** The counters after classifying each item of `cs`. */
  function TallyOf(cs: seq<Change>): (t: Tally)
    ensures t.added + t.updated + t.same == |cs|
    ensures t.added == Count(cs, Added) && t.updated == Count(cs, Updated) && t.same == Count(cs, Unchanged)
  {
    if |cs| == 0 then Tally(0, 0, 0)
    else
      var t := TallyOf(cs[1..]);
      match cs[0]
      case Added => t.(added := t.added + 1)
      case Updated => t.(updated := t.updated + 1)
      case Unchanged => t.(same := t.same + 1)
  }

  /** A remote activity is new when no local activity has its id, unchanged
      when the local one the `Map` keeps for that id equals it. */
  function ActivityChange(local: seq<Activity>, a: Activity): Change {
    if a.id !in ActivityIds(local) then Added
    else if LastWithKey(local, ActivityId, a.id) == Some(a) then Unchanged
    else Updated
  }

  function ActivityChanges(local: seq<Activity>, remote: seq<Activity>): (cs: seq<Change>)
    ensures |cs| == |remote| && forall i :: 0 <= i < |remote| ==> cs[i] == ActivityChange(local, remote[i])
  {
    seq(|remote|, i requires 0 <= i < |remote| => ActivityChange(local, remote[i]))
  }

  function DayChange(local: DailyData, remote: DailyData, k: DateKey): Change {
    if k !in Keys(local) then Added
    else if Get(local, k) == Get(remote, k) then Unchanged
    else Updated
  }

  function DayChanges(local: DailyData, remote: DailyData): (cs: seq<Change>)
    ensures |cs| == |remote| && forall i :: 0 <= i < |remote| ==> cs[i] == DayChange(local, remote, remote[i].0)
  {
    seq(|remote|, i requires 0 <= i < |remote| => DayChange(local, remote, remote[i].0))
  }

  function ReminderKeys(rs: seq<Reminder>): (ks: seq<string>)
    ensures |ks| == |rs| && forall i :: 0 <= i < |rs| ==> ks[i] == ReminderKey(rs[i])
  {
    seq(|rs|, i requires 0 <= i < |rs| => ReminderKey(rs[i]))
  }

  /** Reminders are only ever new or unchanged: the dry run does not compare contents. */
  function ReminderChange(localKeys: seq<string>, x: Reminder): Change {
    if ReminderKey(x) in localKeys then Unchanged else Added
  }

  function ReminderChanges(local: seq<Reminder>, remote: seq<Reminder>): (cs: seq<Change>)
    ensures |cs| == |remote| && forall i :: 0 <= i < |remote| ==> cs[i] == ReminderChange(ReminderKeys(local), remote[i])
  {
    seq(|remote|, i requires 0 <= i < |remote| => ReminderChange(ReminderKeys(local), remote[i]))
  }

  /** calculateMergeChanges */
  function CalculateMergeChanges(local: Snapshot, remote: Snapshot): (c: MergeChanges)
    ensures c.activities.added + c.activities.updated + c.activities.same == |remote.activities.GetOr([])|
    ensures c.dailyData.added + c.dailyData.updated + c.dailyData.same == |remote.dailyData.GetOr([])|
    ensures c.reminders.added + c.reminders.same == |remote.reminders.GetOr([])|
    ensures c.reminders.updated == 0
  {
    var reminderChanges := ReminderChanges(local.reminders.GetOr([]), remote.reminders.GetOr([]));
    assert Count(reminderChanges, Updated) == 0;
    MergeChanges(
      TallyOf(ActivityChanges(local.activities.GetOr([]), remote.activities.GetOr([]))),
      TallyOf(DayChanges(local.dailyData.GetOr([]), remote.dailyData.GetOr([]))),
      TallyOf(reminderChanges))
  }

  /** `cs` marks as `Added` exactly the items whose key `isNew` answers for. */
  predicate MarksFresh<T>(cs: seq<Change>, s: seq<T>, isNew: T -> bool) {
    |cs| == |s| && forall i :: 0 <= i < |s| ==> (cs[i] == Added <==> isNew(s[i]))
  }

  lemma MarksFreshTail<T>(cs: seq<Change>, s: seq<T>, isNew: T -> bool)
    requires MarksFresh(cs, s, isNew) && |s| > 0
    ensures MarksFresh(cs[1..], s[1..], isNew)
    ensures Count(cs, Added) == (if isNew(s[0]) then 1 else 0) + Count(cs[1..], Added)
  {
    assert forall i :: 0 <= i < |s[1..]| ==> cs[1..][i] == cs[i + 1] && s[1..][i] == s[i + 1];
  }

  /** The remote pass of mergeActivities grows the map by one entry per remote
      activity whose id the map lacks. */
  lemma {:induction false} AddRemoteActivitiesSize(m: Dict<Id, Activity>, remote: seq<Activity>, now: int, cs: seq<Change>)
    requires UniqueIds(remote)
    requires MarksFresh(cs, remote, (a: Activity) => a.id !in Keys(m))
    ensures |AddRemoteActivities(m, remote, now)| == |m| + Count(cs, Added)
    decreases |remote|
  {
    if |remote| > 0 {
      var a := remote[0];
      var m' := AddRemoteActivity(m, a, now);
      UniqueIdsTail(remote);
      MarksFreshTail(cs, remote, (a: Activity) => a.id !in Keys(m));
      assert |m'| == if a.id in Keys(m) then |m| else |m| + 1 by {
        assert |Keys(m')| == |m'| && |Keys(m)| == |m|;
      }
      AddRemoteActivitiesSize(m', remote[1..], now, cs[1..]);
    }
  }

  /** With duplicate-free ids on both sides, the merged list is longer than
      the local one by exactly the dry run's `added`. */
  lemma DryRunPredictsActivities(local: seq<Activity>, remote: seq<Activity>, strategy: Strategy, now: int)
    requires Merges(strategy) && UniqueIds(local) && UniqueIds(remote)
    ensures |MergeActivities(local, remote, strategy, now)| ==
      |local| + TallyOf(ActivityChanges(local, remote)).added
  {
    PutAllFresh([], local, ActivityId);
    var m := PutAll([], local, ActivityId);
    var cs := ActivityChanges(local, remote);
    forall i | 0 <= i < |remote|
      ensures cs[i] == Added <==> remote[i].id !in Keys(m)
    {
      KeysPutAll([], local, ActivityId, remote[i].id);
      if remote[i].id in ActivityIds(local) {
        var j :| 0 <= j < |local| && ActivityIds(local)[j] == remote[i].id;
        assert ActivityId(local[j]) == remote[i].id;
      }
    }
    AddRemoteActivitiesSize(m, remote, now, cs);
  }

  lemma {:induction false} MergeDaysFromSize(merged: DailyData, local: DailyData, remote: DailyData, cs: seq<Change>)
    requires Wf(remote)
    requires MarksFresh(cs, remote, (e: (DateKey, DayRecord)) => e.0 !in Keys(merged))
    ensures |MergeDaysFrom(merged, local, remote)| == |merged| + Count(cs, Added)
    decreases |remote|
  {
    if |remote| > 0 {
      var (k0, day) := remote[0];
      assert remote == [(k0, day)] + remote[1..];
      GetCons(k0, day, remote[1..], k0);
      var next := match Get(local, k0) case None => day case Some(l) => MergeDayData(l, day);
      var merged' := Put(merged, k0, next);
      MarksFreshTail(cs, remote, (e: (DateKey, DayRecord)) => e.0 !in Keys(merged));
      forall i | 0 <= i < |remote[1..]|
        ensures remote[1..][i].0 != k0
      {
        assert Keys(remote[1..])[i] == remote[1..][i].0;
      }
      assert |merged'| == if k0 in Keys(merged) then |merged| else |merged| + 1 by {
        assert |Keys(merged')| == |merged'| && |Keys(merged)| == |merged|;
      }
      MergeDaysFromSize(merged', local, remote[1..], cs[1..]);
    }
  }

  /** The merged day records outnumber the local ones by exactly the dry run's `added`. */
  lemma DryRunPredictsDays(local: DailyData, remote: DailyData, strategy: Strategy)
    requires Merges(strategy) && Wf(remote)
    ensures |MergeDailyData(local, remote, strategy)| == |local| + TallyOf(DayChanges(local, remote)).added
  {
    MergeDaysFromSize(local, local, remote, DayChanges(local, remote));
  }

  lemma {:induction false} PutAllRemindersSize(m: Dict<string, Reminder>, remote: seq<Reminder>, cs: seq<Change>)
    requires DistinctKeys(remote)
    requires MarksFresh(cs, remote, (x: Reminder) => ReminderKey(x) !in Keys(m))
    ensures |PutAll(m, remote, ReminderKey)| == |m| + Count(cs, Added)
    decreases |remote|
  {
    if |remote| > 0 {
      var x := remote[0];
      var m' := Put(m, ReminderKey(x), x);
      MarksFreshTail(cs, remote, (x: Reminder) => ReminderKey(x) !in Keys(m));
      assert |m'| == if ReminderKey(x) in Keys(m) then |m| else |m| + 1 by {
        assert |Keys(m')| == |m'| && |Keys(m)| == |m|;
      }
      PutAllRemindersSize(m', remote[1..], cs[1..]);
    }
  }

  /** With distinct keys on both sides, the merged reminders outnumber the
      local ones by exactly the dry run's `added`. */
  lemma DryRunPredictsReminders(local: seq<Reminder>, remote: seq<Reminder>, strategy: Strategy)
    requires Merges(strategy) && DistinctKeys(local) && DistinctKeys(remote)
    ensures |MergeReminders(Some(local), Some(remote), strategy)| == |local| + TallyOf(ReminderChanges(local, remote)).added
  {
    PutAllFresh([], local, ReminderKey);
    var m := PutAll([], local, ReminderKey);
    var cs := ReminderChanges(local, remote);
    forall i | 0 <= i < |remote|
      ensures cs[i] == Added <==> ReminderKey(remote[i]) !in Keys(m)
    {
      KeysPutAll([], local, ReminderKey, ReminderKey(remote[i]));
      if ReminderKey(remote[i]) in ReminderKeys(local) {
        var j :| 0 <= j < |local| && ReminderKeys(local)[j] == ReminderKey(remote[i]);
      }
    }
    PutAllRemindersSize(m, remote, cs);
  }
}
