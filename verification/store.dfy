/** The activity store of src/store/useStore.js as state transitions. The
    zustand `set`/`get` pair becomes a `State` value in and out; the
    `save*` calls write to storage and are not part of the state here.
    Random ids are inputs. */
module Store {
  import opened Common
  import opened Dict
  import opened Model
  import Sorting

  /** `currentDate` is held as its date key, the only way the store reads it. */
  datatype State = State(
    activities: seq<Activity>,
    dailyData: DailyData,
    settings: Settings,
    isOnboarded: bool,
    currentDate: DateKey)

  /** The one error the modelled operations can raise: reading a member of `undefined`. */
  datatype StoreError = TypeError

  // ---------------------------------------------------------------------
  // Sequence surgery

  /** The list with every activity's `order` blanked: what it holds apart from the numbering. */
  function Unordered(s: seq<Activity>): (r: seq<Activity>)
    ensures |r| == |s| && forall i :: 0 <= i < |s| ==> r[i] == s[i].(order := None)
  {
    seq(|s|, i requires 0 <= i < |s| => s[i].(order := None))
  }

  function NotId(id: Id): Activity -> bool {
    (a: Activity) => a.id != id
  }

  function Swap<T>(s: seq<T>, i: nat, j: nat): (r: seq<T>)
    requires i < |s| && j < |s|
    ensures |r| == |s| && r[i] == s[j] && r[j] == s[i]
    ensures forall k :: 0 <= k < |s| && k != i && k != j ==> r[k] == s[k]
  {
    s[i := s[j]][j := s[i]]
  }

  /** `s.splice(i, 1)` for an index inside the array. */
  function RemoveAt<T>(s: seq<T>, i: nat): (r: seq<T>)
    requires i < |s|
    ensures |r| == |s| - 1
    ensures forall k :: 0 <= k < |r| ==> r[k] == if k < i then s[k] else s[k + 1]
  {
    s[..i] + s[i + 1..]
  }

  /** `s.splice(i, 0, x)` for an index no greater than the length. */
  function InsertAt<T>(s: seq<T>, i: nat, x: T): (r: seq<T>)
    requires i <= |s|
    ensures |r| == |s| + 1
    ensures forall k :: 0 <= k < |r| ==> r[k] == if k < i then s[k] else if k == i then x else s[k - 1]
  {
    s[..i] + [x] + s[i..]
  }

  /** Where `Array.prototype.splice` starts for a given start argument and length. */
  function SpliceStart(i: int, len: nat): (r: nat)
    ensures r <= len
    ensures 0 <= i <= len ==> r == i
    ensures i > len ==> r == len
    ensures -(len as int) <= i < 0 ==> r == len + i
    ensures i < -(len as int) ==> r == 0
  {
    if i < 0 then (if len + i < 0 then 0 else len + i) else if i > len then len else i
  }

  /** Take the element at `o` out and put it back in at `p`. */
  function Move<T>(s: seq<T>, o: nat, p: nat): (r: seq<T>)
    requires o < |s| && p < |s|
    ensures |r| == |s| && r[p] == s[o]
  {
    InsertAt(RemoveAt(s, o), p, s[o])
  }

  lemma MoveBack<T>(s: seq<T>, o: nat, p: nat)
    requires o < |s| && p < |s|
    ensures Move(Move(s, o, p), p, o) == s
  {
    var u := Move(s, o, p);
    var v := Move(u, p, o);
    forall k | 0 <= k < |s|
      ensures v[k] == s[k]
    {
      var t := RemoveAt(s, o);
      var w := RemoveAt(u, p);
      assert u == InsertAt(t, p, s[o]);
      if k != o {
        var k' := if k < o then k else k - 1;
        assert v[k] == w[k'];
        assert t[k'] == s[k];
      }
    }
  }

  lemma MoveMultiset<T>(s: seq<T>, o: nat, p: nat)
    requires o < |s| && p < |s|
    ensures multiset(Move(s, o, p)) == multiset(s)
  {
    var t := RemoveAt(s, o);
    assert multiset(t) + multiset{s[o]} == multiset(s) by {
      assert s == s[..o] + [s[o]] + s[o + 1..];
    }
    assert multiset(Move(s, o, p)) == multiset(t) + multiset{s[o]} by {
      assert t == t[..p] + t[p..];
    }
  }

  /** Apart from the moved element, a move keeps the others in their order. */
  lemma MoveKeepsOthers<T>(s: seq<T>, o: nat, p: nat)
    requires o < |s| && p < |s|
    ensures RemoveAt(Move(s, o, p), p) == RemoveAt(s, o)
  {
    var t := RemoveAt(s, o);
    var m := Move(s, o, p);
    assert m == InsertAt(t, p, s[o]);
    forall k | 0 <= k < |t|
      ensures RemoveAt(m, p)[k] == t[k]
    {
    }
  }

  lemma UnorderedMove(s: seq<Activity>, o: nat, p: nat)
    requires o < |s| && p < |s|
    ensures Unordered(Move(s, o, p)) == Move(Unordered(s), o, p)
  {
    var a := Unordered(Move(s, o, p));
    var b := Move(Unordered(s), o, p);
    forall k | 0 <= k < |s|
      ensures a[k] == b[k]
    {
      var t := RemoveAt(s, o);
      var t' := RemoveAt(Unordered(s), o);
      assert Move(s, o, p) == InsertAt(t, p, s[o]);
      assert b == InsertAt(t', p, Unordered(s)[o]);
      if k != p {
        var k' := if k < p then k else k - 1;
        assert t'[k'] == t[k'].(order := None);
      }
    }
  }

  lemma UnorderedSwap(s: seq<Activity>, i: nat, j: nat)
    requires i < |s| && j < |s|
    ensures Unordered(Swap(s, i, j)) == Swap(Unordered(s), i, j)
  {
  }

  lemma UnorderedRenumber(s: seq<Activity>)
    ensures Unordered(Renumber(s)) == Unordered(s)
  {
  }

  /** Renumbering only looks at what the list holds apart from `order`. */
  lemma RenumberIgnoresOrder(a: seq<Activity>, b: seq<Activity>)
    requires Unordered(a) == Unordered(b)
    ensures Renumber(a) == Renumber(b)
  {
    forall i | 0 <= i < |a|
      ensures Renumber(a)[i] == Renumber(b)[i]
    {
      assert Unordered(a)[i] == Unordered(b)[i];
    }
  }

  lemma RenumberDense(s: seq<Activity>)
    requires DenseOrder(s)
    ensures Renumber(s) == s
  {
  }

  lemma {:induction false} UnorderedFilter(s: seq<Activity>, id: Id)
    ensures Unordered(Filter(NotId(id), s)) == Filter(NotId(id), Unordered(s))
  {
    if |s| > 0 {
      UnorderedFilter(s[1..], id);
      UnorderedFilterStep(s, id);
    }
  }

  lemma UnorderedFilterStep(s: seq<Activity>, id: Id)
    requires |s| > 0
    requires Unordered(Filter(NotId(id), s[1..])) == Filter(NotId(id), Unordered(s[1..]))
    ensures Unordered(Filter(NotId(id), s)) == Filter(NotId(id), Unordered(s))
  {
    var u := Unordered(s);
    UnorderedTail(s);
    if s[0].id != id {
      KeptHead(s, u, id);
    } else {
      DroppedHead(s, u, id);
    }
  }

  lemma UnorderedTail(s: seq<Activity>)
    requires |s| > 0
    ensures Unordered(s)[1..] == Unordered(s[1..])
  {
  }

  lemma DroppedHead(s: seq<Activity>, u: seq<Activity>, id: Id)
    requires |s| > 0 && s[0].id == id && u == Unordered(s) && u[1..] == Unordered(s[1..])
    requires Unordered(Filter(NotId(id), s[1..])) == Filter(NotId(id), u[1..])
    ensures Unordered(Filter(NotId(id), s)) == Filter(NotId(id), u)
  {
    FilterDropsHead(NotId(id), s);
    assert !NotId(id)(u[0]);
    FilterDropsHead(NotId(id), u);
  }

  lemma KeptHead(s: seq<Activity>, u: seq<Activity>, id: Id)
    requires |s| > 0 && s[0].id != id && u == Unordered(s) && u[1..] == Unordered(s[1..])
    requires Unordered(Filter(NotId(id), s[1..])) == Filter(NotId(id), u[1..])
    ensures Unordered(Filter(NotId(id), s)) == Filter(NotId(id), u)
  {
    FilterKeepsHead(NotId(id), s);
    assert NotId(id)(u[0]);
    FilterKeepsHead(NotId(id), u);
    UnorderedCons(s[0], Filter(NotId(id), s[1..]));
  }

  lemma FilterKeepsHead<T>(p: T -> bool, s: seq<T>)
    requires |s| > 0 && p(s[0])
    ensures Filter(p, s) == [s[0]] + Filter(p, s[1..])
  {
  }

  lemma FilterDropsHead<T>(p: T -> bool, s: seq<T>)
    requires |s| > 0 && !p(s[0])
    ensures Filter(p, s) == Filter(p, s[1..])
  {
  }

  lemma UnorderedCons(a: Activity, s: seq<Activity>)
    ensures Unordered([a] + s) == [a.(order := None)] + Unordered(s)
  {
  }

  // ---------------------------------------------------------------------
  // Activity list

  /** addActivity: the new activity goes last, numbered with the old length;
      the first activity ever added marks the user onboarded. */
  function AddActivity(st: State, name: string, id: Id): (r: State)
    ensures |r.activities| == |st.activities| + 1 && r.activities[..|st.activities|] == st.activities
    ensures r.activities[|st.activities|] == Activity(id, name, Some(|st.activities|), Unset, None)
    ensures r.isOnboarded <==> st.isOnboarded || |st.activities| == 0
    ensures r.(activities := st.activities, isOnboarded := st.isOnboarded) == st
  {
    var acts := st.activities + [Activity(id, name, Some(|st.activities|), Unset, None)];
    st.(activities := acts, isOnboarded := st.isOnboarded || |acts| == 1)
  }

  /** Adding to a densely numbered list keeps it dense. */
  lemma AddKeepsDense(st: State, name: string, id: Id)
    requires DenseOrder(st.activities)
    ensures DenseOrder(AddActivity(st, name, id).activities)
  {
  }

  /** updateActivity: every activity with the id is renamed, nothing else changes. */
  function UpdateActivity(acts: seq<Activity>, id: Id, name: string): (r: seq<Activity>)
    ensures |r| == |acts|
    ensures forall i :: 0 <= i < |acts| ==> r[i] == if acts[i].id == id then acts[i].(name := name) else acts[i]
  {
    seq(|acts|, i requires 0 <= i < |acts| => if acts[i].id == id then acts[i].(name := name) else acts[i])
  }

  /** Renaming keeps ids, numbering and the rest of every activity, and the last rename wins. */
  lemma UpdateActivityKeeps(acts: seq<Activity>, id: Id, name: string, name': string)
    ensures ActivityIds(UpdateActivity(acts, id, name)) == ActivityIds(acts)
    ensures DenseOrder(acts) ==> DenseOrder(UpdateActivity(acts, id, name))
    ensures UpdateActivity(UpdateActivity(acts, id, name), id, name') == UpdateActivity(acts, id, name')
  {
  }

  /** The id leaves a day's `completed` list; the rest of the record stays. */
  function RemoveCompletion(d: DayRecord, id: Id): (r: DayRecord)
    ensures forall x :: x in r.completed <==> x in d.completed && x != id
    ensures r.(completed := d.completed) == d
    ensures id !in d.completed ==> r == d
  {
    if id in d.completed then d.(completed := RemoveAll(d.completed, id)) else d
  }

  /** The clean-up loop of deleteActivity over every loaded day. */
  function RemoveFromDays(days: DailyData, id: Id): (r: DailyData)
    ensures Keys(r) == Keys(days)
    ensures forall i :: 0 <= i < |days| ==> r[i].1 == RemoveCompletion(days[i].1, id)
  {
    seq(|days|, i requires 0 <= i < |days| => (days[i].0, RemoveCompletion(days[i].1, id)))
  }

  /** deleteActivity: the activities without the id, renumbered 0..n-1 in
      list order, and the id gone from every loaded day's `completed`. */
  function DeleteActivity(st: State, id: Id): (r: State)
    ensures id !in ActivityIds(r.activities)
    ensures DenseOrder(r.activities)
    ensures Unordered(r.activities) == Filter(NotId(id), Unordered(st.activities))
    ensures Keys(r.dailyData) == Keys(st.dailyData)
    ensures forall i, x | 0 <= i < |st.dailyData| ::
      x in r.dailyData[i].1.completed <==> x in st.dailyData[i].1.completed && x != id
    ensures forall i | 0 <= i < |st.dailyData| ::
      r.dailyData[i].1.(completed := st.dailyData[i].1.completed) == st.dailyData[i].1
    ensures r.(activities := st.activities, dailyData := st.dailyData) == st
  {
    var kept := Filter(NotId(id), st.activities);
    UnorderedFilter(st.activities, id);
    UnorderedRenumber(kept);
    var r := st.(activities := Renumber(kept), dailyData := RemoveFromDays(st.dailyData, id));
    assert forall i :: 0 <= i < |kept| ==> NotId(id)(kept[i]);
    r
  }

  /** Deleting a freshly added activity gives back the list and the day records. */
  lemma AddThenDelete(st: State, name: string, id: Id)
    requires DenseOrder(st.activities) && id !in ActivityIds(st.activities)
    requires forall i :: 0 <= i < |st.dailyData| ==> id !in st.dailyData[i].1.completed
    ensures DeleteActivity(AddActivity(st, name, id), id).activities == st.activities
    ensures DeleteActivity(AddActivity(st, name, id), id).dailyData == st.dailyData
  {
    var acts := st.activities;
    var added := AddActivity(st, name, id).activities;
    assert added == acts + [added[|acts|]];
    FilterConcat(NotId(id), acts, [added[|acts|]]);
    forall i | 0 <= i < |acts|
      ensures NotId(id)(acts[i])
    {
      assert ActivityIds(acts)[i] == acts[i].id;
    }
    FilterKeepsAll(NotId(id), acts);
    FilterDropsAll(NotId(id), [added[|acts|]]);
    assert Filter(NotId(id), added) == acts;
    RenumberDense(acts);
  }

  // ---------------------------------------------------------------------
  // Reordering

  /** moveActivityUp: the first activity with the id trades places with its
      predecessor and the list is renumbered; an unknown id or the first
      activity leaves the list as it is. */
  function MoveActivityUp(acts: seq<Activity>, id: Id): (r: seq<Activity>)
    ensures var i := IndexOf(ActivityIds(acts), id);
      if i <= 0 then r == acts
      else DenseOrder(r) && Unordered(r) == Swap(Unordered(acts), i - 1, i) && r[i - 1].id == id
  {
    var i := IndexOf(ActivityIds(acts), id);
    if i > 0 then
      UnorderedRenumber(Swap(acts, i - 1, i));
      UnorderedSwap(acts, i - 1, i);
      Renumber(Swap(acts, i - 1, i))
    else acts
  }

  /** moveActivityDown as intended: the first activity with the id trades
      places with its successor and the list is renumbered; an unknown id or
      the last activity leaves the list as it is. */
  function MoveActivityDown(acts: seq<Activity>, id: Id): (r: seq<Activity>)
    ensures var i := IndexOf(ActivityIds(acts), id);
      if i == -1 || i == |acts| - 1 then r == acts
      else DenseOrder(r) && Unordered(r) == Swap(Unordered(acts), i, i + 1) && r[i + 1].id == id
  {
    var i := IndexOf(ActivityIds(acts), id);
    if 0 <= i < |acts| - 1 then
      UnorderedRenumber(Swap(acts, i, i + 1));
      UnorderedSwap(acts, i, i + 1);
      Renumber(Swap(acts, i, i + 1))
    else acts
  }

  /** moveActivityDown as written: the only guard is `currentIndex <
      length - 1`, which an unknown id (index -1) passes on a non-empty list.
      The swap then writes `undefined` into slot 0 and the renumbering loop
      throws reading `order` of it. */
  function MoveActivityDownAsWritten(acts: seq<Activity>, id: Id): (r: Result<seq<Activity>, StoreError>)
    ensures r.Err? <==> |acts| > 0 && id !in ActivityIds(acts)
    ensures r.Ok? ==> r.value == MoveActivityDown(acts, id)
  {
    var i := IndexOf(ActivityIds(acts), id);
    if i < |acts| - 1 then
      if i == -1 then Err(TypeError) else Ok(Renumber(Swap(acts, i, i + 1)))
    else Ok(acts)
  }

  /** A one-activity list and an id it does not hold make the as-written move throw. */
  lemma MoveDownUnknownIdThrows()
    ensures MoveActivityDownAsWritten([Activity("a", "Read", Some(0), Unset, None)], "b") == Err(TypeError)
  {
    assert ActivityIds([Activity("a", "Read", Some(0), Unset, None)]) == ["a"];
  }

  lemma SwapBackDense(acts: seq<Activity>, t: seq<Activity>, i: nat)
    requires DenseOrder(acts) && i + 1 < |acts|
    requires |t| == |acts| && Unordered(t) == Swap(Unordered(acts), i, i + 1)
    ensures Renumber(Swap(t, i, i + 1)) == acts
  {
    UnorderedSwap(t, i, i + 1);
    assert Unordered(Swap(t, i, i + 1)) == Unordered(acts);
    RenumberIgnoresOrder(Swap(t, i, i + 1), acts);
    RenumberDense(acts);
  }

  /** Lists that agree apart from numbering up to `n` have the same ids up to `n`. */
  lemma SameIdsBefore(a: seq<Activity>, b: seq<Activity>, n: nat)
    requires n <= |a| && n <= |b|
    requires forall k :: 0 <= k < n ==> Unordered(a)[k] == Unordered(b)[k]
    ensures ActivityIds(a)[..n] == ActivityIds(b)[..n]
  {
    forall k | 0 <= k < n
      ensures ActivityIds(a)[k] == ActivityIds(b)[k]
    {
      assert Unordered(a)[k] == Unordered(b)[k];
    }
  }

  /** Moving an activity up and then down again restores a densely numbered list. */
  lemma MoveUpThenDown(acts: seq<Activity>, id: Id)
    requires DenseOrder(acts) && IndexOf(ActivityIds(acts), id) > 0
    ensures MoveActivityDown(MoveActivityUp(acts, id), id) == acts
  {
    var i := IndexOf(ActivityIds(acts), id);
    var t := MoveActivityUp(acts, id);
    SameIdsBefore(acts, t, i - 1);
    assert ActivityIds(acts)[..i - 1] <= ActivityIds(acts)[..i];
    IndexOfUnique(ActivityIds(t), id, i - 1);
    assert IndexOf(ActivityIds(t), id) == i - 1;
    SwapBackDense(acts, t, i - 1);
  }

  /** Moving an activity down and then up again restores a densely numbered
      list whose ids are unique. */
  lemma MoveDownThenUp(acts: seq<Activity>, id: Id)
    requires DenseOrder(acts) && UniqueIds(acts)
    requires 0 <= IndexOf(ActivityIds(acts), id) < |acts| - 1
    ensures MoveActivityUp(MoveActivityDown(acts, id), id) == acts
  {
    var i := IndexOf(ActivityIds(acts), id);
    var t := MoveActivityDown(acts, id);
    MovedDownIndex(acts, id);
    MoveUpAt(t, id, i + 1);
    SwapBackDense(acts, t, i);
  }

  /** Moving up the activity first found at `j > 0` swaps it with its predecessor and renumbers. */
  lemma MoveUpAt(t: seq<Activity>, id: Id, j: nat)
    requires 0 < j < |t| && IndexOf(ActivityIds(t), id) == j
    ensures MoveActivityUp(t, id) == Renumber(Swap(t, j - 1, j))
  {
  }

  /** After moving down, the activity is first found one place further on. */
  lemma MovedDownIndex(acts: seq<Activity>, id: Id)
    requires UniqueIds(acts)
    requires 0 <= IndexOf(ActivityIds(acts), id) < |acts| - 1
    ensures IndexOf(ActivityIds(MoveActivityDown(acts, id)), id) == IndexOf(ActivityIds(acts), id) + 1
  {
    var i := IndexOf(ActivityIds(acts), id);
    var t := MoveActivityDown(acts, id);
    var ids := ActivityIds(t);
    forall k | 0 <= k < i + 1
      ensures ids[k] != id
    {
      assert Unordered(t)[k] == Swap(Unordered(acts), i, i + 1)[k];
      if k < i {
        assert ActivityIds(acts)[..i][k] == acts[k].id;
      }
    }
    assert Unordered(t)[i + 1] == Swap(Unordered(acts), i, i + 1)[i + 1];
    assert ids[i + 1] == id;
    assert id !in ids[..i + 1];
    IndexOfUnique(ids, id, i + 1);
  }

  /** reorderActivities (drag and drop): equal indices change nothing;
      otherwise the activity at `oldIndex` is spliced out and back in at
      `newIndex`, both read the way `splice` reads them, and the list is
      renumbered. An `oldIndex` past the end splices out nothing and
      inserts `undefined`, which the renumbering loop throws on. */
  function ReorderActivities(acts: seq<Activity>, oldIndex: int, newIndex: int): (r: Result<seq<Activity>, StoreError>)
    ensures oldIndex == newIndex ==> r == Ok(acts)
    ensures oldIndex != newIndex ==> (r.Err? <==> SpliceStart(oldIndex, |acts|) == |acts|)
    ensures r.Ok? && oldIndex != newIndex ==>
      var o, p := SpliceStart(oldIndex, |acts|), SpliceStart(newIndex, |acts| - 1);
      && |r.value| == |acts| && DenseOrder(r.value)
      && multiset(Unordered(r.value)) == multiset(Unordered(acts))
      && Unordered(r.value)[p] == Unordered(acts)[o]
      && RemoveAt(Unordered(r.value), p) == RemoveAt(Unordered(acts), o)
  {
    if oldIndex == newIndex then Ok(acts)
    else
      var o := SpliceStart(oldIndex, |acts|);
      if o == |acts| then Err(TypeError)
      else
        var p := SpliceStart(newIndex, |acts| - 1);
        var moved := Move(acts, o, p);
        UnorderedRenumber(moved);
        UnorderedMove(acts, o, p);
        MoveMultiset(Unordered(acts), o, p);
        MoveKeepsOthers(Unordered(acts), o, p);
        Ok(Renumber(moved))
  }

  /** Dragging an activity back to where it came from restores a densely numbered list. */
  lemma ReorderBack(acts: seq<Activity>, o: nat, p: nat)
    requires DenseOrder(acts) && o < |acts| && p < |acts| && o != p
    ensures ReorderActivities(acts, o, p).Ok?
    ensures ReorderActivities(ReorderActivities(acts, o, p).value, p, o) == Ok(acts)
  {
    var t := Renumber(Move(acts, o, p));
    assert ReorderActivities(acts, o, p) == Ok(t);
    UnorderedRenumber(Move(acts, o, p));
    UnorderedMove(acts, o, p);
    UnorderedMove(t, p, o);
    MoveBack(Unordered(acts), o, p);
    assert Unordered(Move(t, p, o)) == Unordered(acts);
    RenumberIgnoresOrder(Move(t, p, o), acts);
    RenumberDense(acts);
  }

  // ---------------------------------------------------------------------
  // Day records

  /** The current date's record, or `{completed: [], notes: ''}` when none is loaded. */
  function CurrentDay(st: State): DayRecord {
    Get(st.dailyData, st.currentDate).GetOr(EmptyDay)
  }

  /** toggleActivity: a completed id is removed (every copy of it), another
      one is appended; the rest of the record stays and only the current date
      changes. */
  function ToggleActivity(st: State, activityId: Id): (r: State)
    ensures var before, after := CurrentDay(st), CurrentDay(r);
      && (activityId in before.completed ==>
            forall x :: x in after.completed <==> x in before.completed && x != activityId)
      && (activityId !in before.completed ==> after.completed == before.completed + [activityId])
      && after.(completed := before.completed) == before
    ensures Get(r.dailyData, st.currentDate).Some?
    ensures forall k | k != st.currentDate :: Get(r.dailyData, k) == Get(st.dailyData, k)
    ensures r.(dailyData := st.dailyData) == st
  {
    var cur := CurrentDay(st);
    var completed := if activityId in cur.completed then RemoveAll(cur.completed, activityId) else cur.completed + [activityId];
    var r := st.(dailyData := Put(st.dailyData, st.currentDate, cur.(completed := completed)));
    GetPut(st.dailyData, st.currentDate, cur.(completed := completed), st.currentDate);
    assert forall k | k != st.currentDate :: Get(r.dailyData, k) == Get(st.dailyData, k) by {
      forall k | k != st.currentDate
        ensures Get(r.dailyData, k) == Get(st.dailyData, k)
      {
        GetPut(st.dailyData, st.currentDate, cur.(completed := completed), k);
      }
    }
    r
  }

  lemma RemoveAllAbsent<T>(s: seq<T>, x: T)
    requires x !in s
    ensures RemoveAll(s, x) == s
  {
    if |s| > 0 {
      RemoveAllAbsent(s[1..], x);
      assert s == [s[0]] + s[1..];
    }
  }

  /** Toggling an id that is not completed twice leaves the current date's
      record as it was read (a date with no record now holds the empty one). */
  lemma ToggleTwice(st: State, activityId: Id)
    requires activityId !in CurrentDay(st).completed
    ensures ToggleActivity(ToggleActivity(st, activityId), activityId) ==
      st.(dailyData := Put(st.dailyData, st.currentDate, CurrentDay(st)))
  {
    var cur := CurrentDay(st);
    var once := cur.(completed := cur.completed + [activityId]);
    var mid := ToggleActivity(st, activityId);
    assert mid.dailyData == Put(st.dailyData, st.currentDate, once);
    GetPut(st.dailyData, st.currentDate, once, st.currentDate);
    RemoveAllSnoc(cur.completed, activityId);
    PutPut(st.dailyData, st.currentDate, once, cur);
  }

  /** updateNotes: only the current date's notes change. */
  function UpdateNotes(st: State, notes: string): (r: State)
    ensures CurrentDay(r) == CurrentDay(st).(notes := notes)
    ensures forall k | k != st.currentDate :: Get(r.dailyData, k) == Get(st.dailyData, k)
    ensures r.(dailyData := st.dailyData) == st
  {
    var cur := CurrentDay(st);
    var r := st.(dailyData := Put(st.dailyData, st.currentDate, cur.(notes := notes)));
    GetPut(st.dailyData, st.currentDate, cur.(notes := notes), st.currentDate);
    assert forall k | k != st.currentDate :: Get(r.dailyData, k) == Get(st.dailyData, k) by {
      forall k | k != st.currentDate
        ensures Get(r.dailyData, k) == Get(st.dailyData, k)
      {
        GetPut(st.dailyData, st.currentDate, cur.(notes := notes), k);
      }
    }
    r
  }

  /** The last notes written win, and writing notes never touches completions. */
  lemma UpdateNotesTwice(st: State, a: string, b: string)
    ensures UpdateNotes(UpdateNotes(st, a), b) == UpdateNotes(st, b)
    ensures CurrentDay(UpdateNotes(st, a)).completed == CurrentDay(st).completed
  {
    var cur := CurrentDay(st);
    PutPut(st.dailyData, st.currentDate, cur.(notes := a), cur.(notes := b));
  }

  // ---------------------------------------------------------------------
  // Statistics

  /** getCompletionRate before the percentage: completed over possible, or
      no rate at all (the source answers 0) without activities or dates. */
  datatype Rate = NoRate | Rate(completed: nat, possible: nat)

  /** The number of completions recorded over the given days. */
  function TotalCompleted(days: seq<DayRecord>): nat {
    if |days| == 0 then 0 else |days[0].completed| + TotalCompleted(days[1..])
  }

  function CompletionRate(st: State): (r: Rate)
    ensures r.NoRate? <==> |st.activities| == 0 || |st.dailyData| == 0
    ensures r.Rate? ==> r.possible == |st.activities| * |st.dailyData| && r.possible > 0
    ensures r.Rate? ==> r.completed == TotalCompleted(Values(st.dailyData))
  {
    if |st.activities| == 0 || |st.dailyData| == 0 then NoRate
    else Rate(TotalCompleted(Values(st.dailyData)), |st.activities| * |st.dailyData|)
  }

  lemma {:induction false} SetCardAtMost<T>(s: seq<T>)
    ensures |set x | x in s| <= |s|
  {
    if |s| > 0 {
      SetCardAtMost(s[1..]);
      assert (set x | x in s) == (set x | x in s[1..]) + {s[0]};
    }
  }

  /** A day can complete no more activities than exist, when its list holds
      known ids without repeats. */
  lemma DayAtMostAll(d: DayRecord, acts: seq<Activity>)
    requires NoDups(d.completed) && forall x | x in d.completed :: x in ActivityIds(acts)
    ensures |d.completed| <= |acts|
  {
    var a, b := set x | x in d.completed, set x | x in ActivityIds(acts);
    NoDupsCard(d.completed);
    SetCardAtMost(ActivityIds(acts));
    assert b == a + (b - a) && a * (b - a) == {};
  }

  /** Every loaded day holds known ids without repeats. */
  predicate DaysConsistent(acts: seq<Activity>, days: seq<DayRecord>) {
    forall i :: 0 <= i < |days| ==>
      NoDups(days[i].completed) && forall x | x in days[i].completed :: x in ActivityIds(acts)
  }

  lemma {:induction false} TotalAtMost(acts: seq<Activity>, days: seq<DayRecord>)
    requires DaysConsistent(acts, days)
    ensures TotalCompleted(days) <= |acts| * |days|
  {
    if |days| > 0 {
      DayAtMostAll(days[0], acts);
      TotalAtMost(acts, days[1..]);
    }
  }

  /** The completion rate never exceeds 100% while the days stay consistent with the list. */
  lemma RateAtMostFull(st: State)
    requires DaysConsistent(st.activities, Values(st.dailyData))
    ensures CompletionRate(st).Rate? ==> CompletionRate(st).completed <= CompletionRate(st).possible
  {
    TotalAtMost(st.activities, Values(st.dailyData));
  }

  /** An activity and the number of its completions over the loaded days. */
  datatype ActivityStat = ActivityStat(activity: Activity, count: nat)

  /** How many times the id appears over the given days' `completed` lists. */
  function CompletionsOf(days: seq<DayRecord>, id: Id): nat {
    if |days| == 0 then 0 else Count(days[0].completed, id) + CompletionsOf(days[1..], id)
  }

  function StatOf(days: seq<DayRecord>, a: Activity): ActivityStat {
    ActivityStat(a, CompletionsOf(days, a.id))
  }

  function NegCount(s: ActivityStat): int {
    -(s.count as int)
  }

  /** The stats of the activities, in list order. */
  function ListStats(days: seq<DayRecord>, acts: seq<Activity>): (r: seq<ActivityStat>)
    ensures |r| == |acts|
    ensures forall i :: 0 <= i < |acts| ==> r[i] == StatOf(days, acts[i])
  {
    seq(|acts|, i requires 0 <= i < |acts| => StatOf(days, acts[i]))
  }

  /** getActivityStats: one entry per activity with its completion count,
      most completed first (ties keep list order). */
  function ActivityStats(st: State): (r: seq<ActivityStat>)
    ensures |r| == |st.activities|
    ensures forall i, j :: 0 <= i < j < |r| ==> r[i].count >= r[j].count
    ensures forall s | s in r :: s.activity in st.activities && s == StatOf(Values(st.dailyData), s.activity)
    ensures forall a | a in st.activities :: StatOf(Values(st.dailyData), a) in r
    ensures multiset(r) == multiset(ListStats(Values(st.dailyData), st.activities))
    ensures forall c :: Sorting.WithKey(r, NegCount, c) == Sorting.WithKey(ListStats(Values(st.dailyData), st.activities), NegCount, c)
  {
    var days := Values(st.dailyData);
    var stats := ListStats(days, st.activities);
    if |st.activities| == 0 then []
    else
      StatsMembers(stats, days, st.activities);
      Sorting.SortByStableAll(stats, NegCount);
      Sorting.SortBy(stats, NegCount)
  }

  lemma StatsMembers(stats: seq<ActivityStat>, days: seq<DayRecord>, acts: seq<Activity>)
    requires |stats| == |acts| > 0 && forall i :: 0 <= i < |acts| ==> stats[i] == StatOf(days, acts[i])
    ensures var r := Sorting.SortBy(stats, NegCount);
      |r| == |acts|
    ensures var r := Sorting.SortBy(stats, NegCount);
      forall i, j :: 0 <= i < j < |r| ==> r[i].count >= r[j].count
    ensures var r := Sorting.SortBy(stats, NegCount);
      forall s | s in r :: s.activity in acts && s == StatOf(days, s.activity)
    ensures var r := Sorting.SortBy(stats, NegCount);
      forall a | a in acts :: StatOf(days, a) in r
  {
    var r := Sorting.SortBy(stats, NegCount);
    forall s | s in r
      ensures s.activity in acts && s == StatOf(days, s.activity)
    {
      Sorting.SortByMembers(stats, NegCount, s);
    }
    forall a | a in acts
      ensures StatOf(days, a) in r
    {
      var i :| 0 <= i < |acts| && acts[i] == a;
      Sorting.SortByMembers(stats, NegCount, stats[i]);
    }
    assert Sorting.SortedBy(r, NegCount);
  }

  lemma {:induction false} NoCompletionsLeft(days: seq<DayRecord>, id: Id)
    requires forall i :: 0 <= i < |days| ==> id !in days[i].completed
    ensures CompletionsOf(days, id) == 0
  {
    if |days| > 0 {
      NoCompletionsLeft(days[1..], id);
    }
  }

  /** After deleting an activity no completion of it is left to count. */
  lemma DeleteClearsCompletions(st: State, id: Id)
    ensures CompletionsOf(Values(DeleteActivity(st, id).dailyData), id) == 0
  {
    var days := Values(DeleteActivity(st, id).dailyData);
    forall i | 0 <= i < |days|
      ensures id !in days[i].completed
    {
      assert days[i] == DeleteActivity(st, id).dailyData[i].1;
    }
    NoCompletionsLeft(days, id);
  }

  /** The stored language setupDefaultActivities reads: `'es'`, or anything
      else (including nothing stored), which reads as English. */
  datatype Language = Spanish | English

  /** The ten default activity names of each language; the English list is
      also `strings.defaultActivities` of the older store. */
  function DefaultActivityNames(lang: Language): (names: seq<string>)
    ensures |names| == 10
  {
    match lang
    case Spanish =>
      ["Tomar medicación", "Ejercicio", "Meditación", "Diario", "Llamar a un amigo",
       "Salir al exterior", "Leer", "Practicar gratitud", "Comer comidas saludables", "Dormir lo suficiente"]
    case English =>
      ["Take medication", "Exercise", "Meditation", "Journal", "Call a friend",
       "Go outside", "Read", "Practice gratitude", "Eat healthy meals", "Get enough sleep"]
  }

  /** setupDefaultActivities: one activity per default name of the language,
      in order, numbered from 0, with the given generated ids; the user is
      onboarded and nothing else changes. */
  function SetupDefaultActivities(st: State, lang: Language, ids: seq<Id>): (r: State)
    requires |ids| == 10
    ensures |r.activities| == 10 && DenseOrder(r.activities)
    ensures ActivityIds(r.activities) == ids
    ensures forall i :: 0 <= i < 10 ==>
      r.activities[i].name == DefaultActivityNames(lang)[i] && r.activities[i].activeDays.Unset?
    ensures r.isOnboarded
    ensures r.(activities := st.activities, isOnboarded := st.isOnboarded) == st
  {
    var names := DefaultActivityNames(lang);
    var acts := seq(10, i requires 0 <= i < 10 => Activity(ids[i], names[i], Some(i), Unset, None));
    assert ActivityIds(acts) == ids;
    st.(activities := acts, isOnboarded := true)
  }
}
