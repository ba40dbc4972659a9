/** The older activity store of activity-tracker/src/store/useStore.js.
    Its toggleActivity, updateNotes, updateActivity, getCompletionRate and
    getActivityStats are line for line those of the current store and are
    the members of `Store`; what differs is below: activities carry no
    `order`, deleting does not renumber, and onboarding installs a fixed
    list of default activities. */
module LegacyStore {
  import opened Common
  import opened Model
  import Store

  /** addActivity: `{id, name}` goes last, with no `order`; the first
      activity marks the user onboarded. The id (the clock reading as a
      string) is an input. */
  function AddActivity(st: Store.State, name: string, id: Id): (r: Store.State)
    ensures r.activities == st.activities + [Activity(id, name, None, Unset, None)]
    ensures r.isOnboarded <==> st.isOnboarded || |st.activities| == 0
    ensures r.(activities := st.activities, isOnboarded := st.isOnboarded) == st
  {
    var acts := st.activities + [Activity(id, name, None, Unset, None)];
    st.(activities := acts, isOnboarded := st.isOnboarded || |acts| == 1)
  }

  /** deleteActivity: every activity with the id goes and the others keep
      their place and their `order`; the id leaves every loaded day. */
  function DeleteActivity(st: Store.State, id: Id): (r: Store.State)
    ensures forall a :: a in r.activities <==> a in st.activities && a.id != id
    ensures |r.activities| <= |st.activities|
    ensures r.dailyData == Store.DeleteActivity(st, id).dailyData
    ensures r.(activities := st.activities, dailyData := st.dailyData) == st
  {
    st.(activities := Filter(Store.NotId(id), st.activities), dailyData := Store.RemoveFromDays(st.dailyData, id))
  }

  /** The current store's delete is this one followed by renumbering. */
  lemma DeleteThenRenumber(st: Store.State, id: Id)
    ensures Store.DeleteActivity(st, id).activities == Renumber(DeleteActivity(st, id).activities)
    ensures Store.DeleteActivity(st, id).dailyData == DeleteActivity(st, id).dailyData
  {
    var kept := Filter(Store.NotId(id), st.activities);
    Store.UnorderedRenumber(kept);
    Store.UnorderedFilter(st.activities, id);
    Store.RenumberIgnoresOrder(Store.DeleteActivity(st, id).activities, kept);
    Store.RenumberDense(Store.DeleteActivity(st, id).activities);
  }

  /** Deleting a freshly added activity gives back the list exactly. */
  lemma AddThenDelete(st: Store.State, name: string, id: Id)
    requires id !in ActivityIds(st.activities)
    ensures DeleteActivity(AddActivity(st, name, id), id).activities == st.activities
  {
    var acts := st.activities;
    var added := Activity(id, name, None, Unset, None);
    FilterConcat(Store.NotId(id), acts, [added]);
    forall i | 0 <= i < |acts|
      ensures Store.NotId(id)(acts[i])
    {
      assert ActivityIds(acts)[i] == acts[i].id;
    }
    FilterKeepsAll(Store.NotId(id), acts);
    FilterDropsAll(Store.NotId(id), [added]);
  }

  function ActivityNames(acts: seq<Activity>): (names: seq<string>)
    ensures |names| == |acts| && forall i :: 0 <= i < |acts| ==> names[i] == acts[i].name
  {
    seq(|acts|, i requires 0 <= i < |acts| => acts[i].name)
  }

  /** setupDefaultActivities: one activity per name of
      `strings.defaultActivities` (the English defaults), in order, with the
      given generated ids and no `order`; the user is onboarded. */
  function SetupDefaultActivities(st: Store.State, ids: seq<Id>): (r: Store.State)
    requires |ids| == 10
    ensures ActivityNames(r.activities) == Store.DefaultActivityNames(Store.English)
    ensures ActivityIds(r.activities) == ids
    ensures forall a | a in r.activities :: a.order.None? && a.activeDays.Unset?
    ensures r.isOnboarded
    ensures r.(activities := st.activities, isOnboarded := st.isOnboarded) == st
  {
    var names := Store.DefaultActivityNames(Store.English);
    st.(activities := seq(|names|, i requires 0 <= i < |names| => Activity(ids[i], names[i], None, Unset, None)),
        isOnboarded := true)
  }

  /** The current store's defaults in English are the older store's,
      numbered. */
  lemma SetupMatchesCurrentStore(st: Store.State, ids: seq<Id>)
    requires |ids| == 10
    ensures Store.SetupDefaultActivities(st, Store.English, ids).activities == Renumber(SetupDefaultActivities(st, ids).activities)
  {
    var current := Store.SetupDefaultActivities(st, Store.English, ids).activities;
    var older := SetupDefaultActivities(st, ids).activities;
    forall i | 0 <= i < 10
      ensures current[i] == Renumber(older)[i]
    {
      assert ActivityIds(current)[i] == ActivityIds(older)[i];
      assert ActivityNames(older)[i] == older[i].name;
    }
  }
}
