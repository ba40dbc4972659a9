/** Reminders (src/utils/reminders.js). The list operations take the list
    `loadReminders` would read and answer the list `saveReminders` would
    write; the clock enters as the current hour and minute, and the ids and
    translated texts the source generates are inputs. */
module Reminders {
  import opened Common
  import opened Model
  import Sorting

  // ---------------------------------------------------------------------
  // Times of day
  // ---------------------------------------------------------------------

  predicate IsDigit(c: char) {
    '0' <= c <= '9'
  }

  predicate AllDigits(s: string) {
    forall i | 0 <= i < |s| :: IsDigit(s[i])
  }

  function DigitValue(c: char): nat
    requires IsDigit(c)
  {
    c as int - '0' as int
  }

  function Digit(d: nat): (c: char)
    requires d < 10
    ensures IsDigit(c) && DigitValue(c) == d
  {
    ('0' as int + d) as char
  }

  /** The decimal value of a run of digits. */
  function DigitsValue(s: string): nat
    requires AllDigits(s)
  {
    if |s| == 0 then 0 else DigitsValue(s[..|s| - 1]) * 10 + DigitValue(s[|s| - 1])
  }

  /** `Number(field)` on a field of a time: the empty string is 0, a run of
      digits its decimal value, and anything else is `NaN`, here `None`. */
  function NumberOf(s: string): (r: Option<nat>)
    ensures r.Some? <==> AllDigits(s)
    ensures s == "" ==> r == Some(0)
  {
    if AllDigits(s) then Some(DigitsValue(s)) else None
  }

  /** `s.split(sep)`: the fields between separators, at least one. */
  function Split(s: string, sep: char): (r: seq<string>)
    ensures |r| >= 1
    ensures sep !in s ==> r == [s]
    ensures forall i | 0 <= i < |r| :: sep !in r[i]
    decreases |s|
  {
    var k := IndexOf(s, sep);
    if k < 0 then [s] else [s[..k]] + Split(s[k + 1..], sep)
  }

  /** An hour and a minute; a parsed time is not range checked (`'25:00'` parses to 25). */
  datatype Clock = Clock(hour: nat, minute: nat)

  /** What `getHours()` and `getMinutes()` read off the current date. */
  type Now = c: Clock | c.hour < 24 && c.minute < 60 witness Clock(0, 0)

  function MinuteOfDay(c: Clock): nat {
    c.hour * 60 + c.minute
  }

  /** `time.split(':').map(Number)`, first two fields: `None` when either is
      `NaN`, including a time without a colon, whose minutes are `undefined`. */
  function ParseTime(time: string): (r: Option<Clock>)
    ensures ':' !in time ==> r == None
  {
    var fields := Split(time, ':');
    if |fields| < 2 then None
    else
      match (NumberOf(fields[0]), NumberOf(fields[1]))
      case (Some(h), Some(m)) => Some(Clock(h, m))
      case _ => None
  }

  /** A two-digit field, with a leading zero below ten. */
  function Pad2(n: nat): (s: string)
    requires n < 100
    ensures |s| == 2 && AllDigits(s)
  {
    [Digit(n / 10), Digit(n % 10)]
  }

  /** `HH:MM`. */
  function LongForm(c: Clock): string
    requires c.hour < 100 && c.minute < 100
  {
    Pad2(c.hour) + ":" + Pad2(c.minute)
  }

  /** `H:MM`. */
  function ShortForm(c: Clock): string
    requires c.hour < 10 && c.minute < 100
  {
    [Digit(c.hour)] + ":" + Pad2(c.minute)
  }

  /** The hour group of the validation pattern: `[0-1]?[0-9]` or `2[0-3]`. */
  predicate HourField(s: string) {
    (|s| == 1 && IsDigit(s[0]))
    || (|s| == 2 && '0' <= s[0] <= '1' && IsDigit(s[1]))
    || (|s| == 2 && s[0] == '2' && '0' <= s[1] <= '3')
  }

  /** The minute group of the validation pattern: `[0-5][0-9]`. */
  predicate MinuteField(s: string) {
    |s| == 2 && '0' <= s[0] <= '5' && IsDigit(s[1])
  }

  /** validateReminderTime: the whole string is an hour group, a colon and a minute group. */
  predicate ValidTime(time: string) {
    exists k | 0 <= k < |time| :: time[k] == ':' && HourField(time[..k]) && MinuteField(time[k + 1..])
  }

  /** The value of a two-digit run. */
  lemma TwoDigitsValue(s: string)
    requires |s| == 2 && AllDigits(s)
    ensures DigitsValue(s) == DigitValue(s[0]) * 10 + DigitValue(s[1])
  {
    var first := s[..1];
    assert first[..0] == [] && first[0] == s[0];
    assert DigitsValue(first) == DigitValue(s[0]);
    assert s[..|s| - 1] == first;
  }

  lemma Pad2OfDigits(s: string)
    requires |s| == 2 && AllDigits(s)
    ensures DigitsValue(s) < 100 && Pad2(DigitsValue(s)) == s
  {
    TwoDigitsValue(s);
    var a, b := DigitValue(s[0]), DigitValue(s[1]);
    assert (a * 10 + b) / 10 == a && (a * 10 + b) % 10 == b;
  }

  lemma DigitsOfPad2(n: nat)
    requires n < 100
    ensures DigitsValue(Pad2(n)) == n
  {
    TwoDigitsValue(Pad2(n));
    assert n == (n / 10) * 10 + n % 10;
  }

  /** The fields of `h + ":" + m` when neither side holds a colon. */
  lemma SplitAtColon(h: string, m: string)
    requires ':' !in h && ':' !in m
    ensures Split(h + ":" + m, ':') == [h, m]
  {
    var t := h + ":" + m;
    assert t[|h|] == ':';
    assert t[..|h|] == h;
    assert t[|h| + 1..] == m;
    assert ':' !in t[..|h|];
  }

  lemma DigitsHaveNoColon(s: string)
    requires AllDigits(s)
    ensures ':' !in s
  {
  }

  /** Two runs of digits around a colon parse to their values. */
  lemma FieldsParse(h: string, m: string)
    requires AllDigits(h) && AllDigits(m)
    ensures ParseTime(h + ":" + m) == Some(Clock(DigitsValue(h), DigitsValue(m)))
  {
    DigitsHaveNoColon(h);
    DigitsHaveNoColon(m);
    SplitAtColon(h, m);
  }

  /** An hour group is one or two digits worth 0..23, written as `Pad2` writes it when two long. */
  lemma HourFieldValue(h: string)
    requires HourField(h)
    ensures AllDigits(h) && DigitsValue(h) < 24
    ensures |h| == 1 ==> DigitsValue(h) < 10 && h == [Digit(DigitsValue(h))]
    ensures |h| == 2 ==> Pad2(DigitsValue(h)) == h
  {
    if |h| == 1 {
      assert h[..0] == [];
    } else {
      Pad2OfDigits(h);
      TwoDigitsValue(h);
    }
  }

  /** A minute group is two digits worth 0..59, written as `Pad2` writes it. */
  lemma MinuteFieldValue(m: string)
    requires MinuteField(m)
    ensures AllDigits(m) && DigitsValue(m) < 60 && Pad2(DigitsValue(m)) == m
  {
    Pad2OfDigits(m);
    TwoDigitsValue(m);
  }

  /** Every time the pattern accepts parses to an hour 0..23 and a minute
      0..59, and is that time written as `H:MM` or `HH:MM`. */
  lemma ValidTimeParses(time: string)
    requires ValidTime(time)
    ensures var c := ParseTime(time);
      c.Some? && c.value.hour < 24 && c.value.minute < 60
      && (time == LongForm(c.value) || (c.value.hour < 10 && time == ShortForm(c.value)))
  {
    var k :| 0 <= k < |time| && time[k] == ':' && HourField(time[..k]) && MinuteField(time[k + 1..]);
    var h, m := time[..k], time[k + 1..];
    assert time == h + ":" + m;
    HourFieldValue(h);
    MinuteFieldValue(m);
    FieldsParse(h, m);
  }

  /** Conversely every hour 0..23 and minute 0..59 written as `HH:MM`, or as
      `H:MM` below ten o'clock, is accepted and parses back to itself. */
  lemma RenderedTimesValid(c: Clock)
    requires c.hour < 24 && c.minute < 60
    ensures ValidTime(LongForm(c)) && ParseTime(LongForm(c)) == Some(c)
    ensures c.hour < 10 ==> ValidTime(ShortForm(c)) && ParseTime(ShortForm(c)) == Some(c)
  {
    LongFormValid(c);
    if c.hour < 10 {
      ShortFormValid(c);
    }
  }

  lemma LongFormValid(c: Clock)
    requires c.hour < 24 && c.minute < 60
    ensures ValidTime(LongForm(c)) && ParseTime(LongForm(c)) == Some(c)
  {
    var h, m := Pad2(c.hour), Pad2(c.minute);
    DigitsOfPad2(c.hour);
    DigitsOfPad2(c.minute);
    FieldsParse(h, m);
    var long := LongForm(c);
    assert long[2] == ':' && long[..2] == h && long[3..] == m;
  }

  lemma ShortFormValid(c: Clock)
    requires c.hour < 10 && c.minute < 60
    ensures ValidTime(ShortForm(c)) && ParseTime(ShortForm(c)) == Some(c)
  {
    var d, m := [Digit(c.hour)], Pad2(c.minute);
    DigitsOfPad2(c.minute);
    assert d[..0] == [];
    assert DigitsValue(d) == c.hour;
    FieldsParse(d, m);
    var short := ShortForm(c);
    assert short[1] == ':' && short[..1] == d && short[2..] == m;
  }

  /** A time written out as two two-digit fields, by its digits. */
  lemma LiteralTime(h: string, m: string)
    requires |h| == 2 && |m| == 2 && AllDigits(h) && AllDigits(m)
    ensures ParseTime(h + ":" + m) ==
      Some(Clock(DigitValue(h[0]) * 10 + DigitValue(h[1]), DigitValue(m[0]) * 10 + DigitValue(m[1])))
    ensures HourField(h) && MinuteField(m) ==> ValidTime(h + ":" + m)
  {
    TwoDigitsValue(h);
    TwoDigitsValue(m);
    SplitAtColon(h, m);
    var t := h + ":" + m;
    assert t[2] == ':' && t[..2] == h && t[3..] == m;
  }

  // ---------------------------------------------------------------------
  // The list of reminders
  // ---------------------------------------------------------------------

  function ReminderIds(rs: seq<Reminder>): (ids: seq<Id>)
    ensures |ids| == |rs| && forall i :: 0 <= i < |rs| ==> ids[i] == rs[i].id
  {
    seq(|rs|, i requires 0 <= i < |rs| => rs[i].id)
  }

  /** getDefaultReminders: the morning check at 09:00 and the evening review
      at 20:00, both on; the labels and messages are the translated texts. */
  function DefaultReminders(morningLabel: string, morningMessage: string,
                            eveningLabel: string, eveningMessage: string): (rs: seq<Reminder>)
    ensures |rs| == 2 && rs[0].id == "morning-check" && rs[1].id == "evening-review"
    ensures rs[0].enabled && rs[1].enabled && ValidTime(rs[0].time) && ValidTime(rs[1].time)
  {
    DefaultTimesValid();
    var morning := Reminder("morning-check", morningLabel, "09:00", true, morningMessage);
    var evening := Reminder("evening-review", eveningLabel, "20:00", true, eveningMessage);
    [morning, evening]
  }

  lemma DefaultTimesValid()
    ensures ValidTime("09:00") && ValidTime("20:00")
  {
    ValidLiteral("09:00", "09", "00");
    ValidLiteral("20:00", "20", "00");
  }

  /** `reminders.find(r => r.id === id)`. */
  function FindById(rs: seq<Reminder>, id: Id): (r: Option<Reminder>)
    ensures r.None? <==> id !in ReminderIds(rs)
    ensures r.Some? ==> r.value in rs && r.value.id == id
    ensures r.Some? ==> r.value == rs[IndexOf(ReminderIds(rs), id)]
  {
    var i := IndexOf(ReminderIds(rs), id);
    if i < 0 then None else Some(rs[i])
  }

  /** createReminder: one enabled reminder goes last, with the given id and
      the message, or the translated default message when the message is
      empty. The list and the new reminder are answered. */
  function CreateReminder(rs: seq<Reminder>, labelText: string, time: string, message: string,
                          id: Id, defaultMessage: string): (r: (seq<Reminder>, Reminder))
    ensures r.0 == rs + [r.1]
    ensures r.1.id == id && r.1.labelText == labelText && r.1.time == time && r.1.enabled
    ensures r.1.message == if message == "" then defaultMessage else message
  {
    var added := Reminder(id, labelText, time, true, if message != "" then message else defaultMessage);
    (rs + [added], added)
  }

  function NotReminderId(id: Id): Reminder -> bool {
    (r: Reminder) => r.id != id
  }

  /** deleteReminder: every reminder with the id goes, the others stay in order. */
  function DeleteReminder(rs: seq<Reminder>, id: Id): (r: seq<Reminder>)
    ensures forall x :: x in r <==> x in rs && x.id != id
    ensures id !in ReminderIds(r)
    ensures |r| <= |rs|
  {
    Filter(NotReminderId(id), rs)
  }

  /** Creating a reminder under an unused id and deleting it gives back the list. */
  lemma CreateThenDelete(rs: seq<Reminder>, labelText: string, time: string, message: string,
                         id: Id, defaultMessage: string)
    requires id !in ReminderIds(rs)
    ensures DeleteReminder(CreateReminder(rs, labelText, time, message, id, defaultMessage).0, id) == rs
  {
    var added := CreateReminder(rs, labelText, time, message, id, defaultMessage).1;
    FilterConcat(NotReminderId(id), rs, [added]);
    forall i | 0 <= i < |rs|
      ensures NotReminderId(id)(rs[i])
    {
      assert ReminderIds(rs)[i] == rs[i].id;
    }
    FilterKeepsAll(NotReminderId(id), rs);
    FilterDropsAll(NotReminderId(id), [added]);
  }

  /** The members an update object supplies; `None` for a member it leaves out. */
  datatype ReminderPatch = ReminderPatch(
    id: Option<Id>,
    labelText: Option<string>,
    time: Option<string>,
    enabled: Option<bool>,
    message: Option<string>)

  /** `{ ...reminder, ...updates }`: every supplied member overrides, every other is kept. */
  function Patch(rem: Reminder, p: ReminderPatch): (r: Reminder)
    ensures r.id == p.id.GetOr(rem.id)
    ensures r.labelText == p.labelText.GetOr(rem.labelText)
    ensures r.time == p.time.GetOr(rem.time)
    ensures r.enabled == p.enabled.GetOr(rem.enabled)
    ensures r.message == p.message.GetOr(rem.message)
  {
    Reminder(
      if p.id.Some? then p.id.value else rem.id,
      if p.labelText.Some? then p.labelText.value else rem.labelText,
      if p.time.Some? then p.time.value else rem.time,
      if p.enabled.Some? then p.enabled.value else rem.enabled,
      if p.message.Some? then p.message.value else rem.message)
  }

  /** updateReminder: every reminder with the id is patched, every other is
      left as it was; answered with the first reminder that has the id
      afterwards (none when the patch changed it). */
  function UpdateReminder(rs: seq<Reminder>, id: Id, p: ReminderPatch): (r: (seq<Reminder>, Option<Reminder>))
    ensures |r.0| == |rs|
    ensures forall i :: 0 <= i < |rs| && rs[i].id != id ==> r.0[i] == rs[i]
    ensures forall i :: 0 <= i < |rs| && rs[i].id == id ==> r.0[i] == Patch(rs[i], p)
    ensures r.1 == FindById(r.0, id)
  {
    var updated := seq(|rs|, i requires 0 <= i < |rs| => if rs[i].id == id then Patch(rs[i], p) else rs[i]);
    (updated, FindById(updated, id))
  }

  /** Updating twice with the same patch is updating once, and a patch that
      supplies nothing changes nothing. */
  lemma UpdateIdempotent(rs: seq<Reminder>, id: Id, p: ReminderPatch)
    ensures UpdateReminder(UpdateReminder(rs, id, p).0, id, p).0 == UpdateReminder(rs, id, p).0
    ensures UpdateReminder(rs, id, ReminderPatch(None, None, None, None, None)).0 == rs
  {
    var once := UpdateReminder(rs, id, p).0;
    var twice := UpdateReminder(once, id, p).0;
    forall i | 0 <= i < |rs|
      ensures twice[i] == once[i]
    {
      if once[i].id == id {
        assert Patch(Patch(rs[i], p), p) == Patch(rs[i], p);
      }
    }
  }

  /** toggleReminder: exactly the reminders with the id have `enabled`
      flipped, nothing else about any reminder changes; answered with the
      first reminder with the id. */
  function ToggleReminder(rs: seq<Reminder>, id: Id): (r: (seq<Reminder>, Option<Reminder>))
    ensures |r.0| == |rs|
    ensures forall i :: 0 <= i < |rs| ==>
      r.0[i].(enabled := rs[i].enabled) == rs[i] && (r.0[i].enabled != rs[i].enabled <==> rs[i].id == id)
    ensures ReminderIds(r.0) == ReminderIds(rs)
    ensures r.1 == FindById(r.0, id)
    ensures r.1.Some? ==> r.1.value.enabled != FindById(rs, id).value.enabled
  {
    var toggled := seq(|rs|, i requires 0 <= i < |rs| =>
      if rs[i].id == id then rs[i].(enabled := !rs[i].enabled) else rs[i]);
    assert ReminderIds(toggled) == ReminderIds(rs);
    (toggled, FindById(toggled, id))
  }

  /** Toggling the same id twice gives back the list. */
  lemma ToggleTwice(rs: seq<Reminder>, id: Id)
    ensures ToggleReminder(ToggleReminder(rs, id).0, id).0 == rs
  {
    var once := ToggleReminder(rs, id).0;
    var twice := ToggleReminder(once, id).0;
    forall i | 0 <= i < |rs|
      ensures twice[i] == rs[i]
    {
      assert once[i].id == rs[i].id;
    }
  }

  // ---------------------------------------------------------------------
  // Scheduling against the clock
  // ---------------------------------------------------------------------

  /** Minutes from now until the reminder's time today; `None` where the
      source computes `NaN`. */
  function TimeUntil(rem: Reminder, now: Now): (r: Option<int>)
    ensures r.Some? <==> ParseTime(rem.time).Some?
  {
    match ParseTime(rem.time)
    case Some(c) => Some(MinuteOfDay(c) - MinuteOfDay(now))
    case None => None
  }

  function Abs(x: int): nat {
    if x < 0 then -x else x
  }

  /** shouldFireReminder: an enabled reminder fires in the same clock hour
      within one minute of its time, either side. */
  function ShouldFire(rem: Reminder, now: Now): (b: bool)
    ensures b <==> (rem.enabled && ParseTime(rem.time).Some? &&
      ParseTime(rem.time).value.hour == now.hour && Abs(ParseTime(rem.time).value.minute - now.minute) <= 1)
    ensures b ==> Abs(TimeUntil(rem, now).value) <= 1
  {
    if !rem.enabled then false
    else
      match ParseTime(rem.time)
      case Some(c) => Abs(now.hour - c.hour) == 0 && Abs(now.minute - c.minute) <= 1
      case None => false
  }

  /** One minute apart across an hour boundary does not fire: a 10:00
      reminder stays silent at 09:59 ... */
  lemma ShouldFireDoesNotWrapBack()
    ensures !ShouldFire(Reminder("r", "Water", "10:00", true, ""), Clock(9, 59))
  {
    TimeLiteral("10:00", "10", "00");
  }

  /** ... and a 09:59 reminder stays silent at 10:00. */
  lemma ShouldFireDoesNotWrapForward()
    ensures !ShouldFire(Reminder("r", "Water", "09:59", true, ""), Clock(10, 0))
  {
    TimeLiteral("09:59", "09", "59");
  }

  lemma ValidLiteral(t: string, h: string, m: string)
    requires t == h + ":" + m && HourField(h) && MinuteField(m)
    ensures ValidTime(t)
  {
    assert t[|h|] == ':' && t[..|h|] == h && t[|h| + 1..] == m;
  }

  lemma TimeLiteral(t: string, h: string, m: string)
    requires t == h + ":" + m
    requires |h| == 2 && |m| == 2 && AllDigits(h) && AllDigits(m)
    ensures ParseTime(t) ==
      Some(Clock(DigitValue(h[0]) * 10 + DigitValue(h[1]), DigitValue(m[0]) * 10 + DigitValue(m[1])))
    ensures HourField(h) && MinuteField(m) ==> ValidTime(t)
  {
    LiteralTime(h, m);
  }

  /** An entry of getUpcomingReminders: the reminder with its minutes to go. */
  datatype UpcomingEntry = UpcomingEntry(reminder: Reminder, timeUntil: int, isToday: bool, isPast: bool)

  /** The filter the pipeline keeps: enabled, and due later within 24 hours. */
  predicate DueToday(rem: Reminder, now: Now) {
    rem.enabled && TimeUntil(rem, now).Some? && 0 < TimeUntil(rem, now).value <= 24 * 60
  }

  function DueTodayAt(now: Now): Reminder -> bool {
    (rem: Reminder) => DueToday(rem, now)
  }

  function EntryOf(rem: Reminder, now: Now): UpcomingEntry
    requires TimeUntil(rem, now).Some?
  {
    var t := TimeUntil(rem, now).value;
    UpcomingEntry(rem, t, t > 0 && t <= 24 * 60, t < 0)
  }

  function EntryTime(e: UpcomingEntry): int {
    e.timeUntil
  }

  function EntryReminders(es: seq<UpcomingEntry>): (rs: seq<Reminder>)
    ensures |rs| == |es| && forall i :: 0 <= i < |es| ==> rs[i] == es[i].reminder
  {
    seq(|es|, i requires 0 <= i < |es| => es[i].reminder)
  }

  /** getUpcomingReminders: the enabled reminders due in the next 24 hours,
      soonest first. The source filters on `enabled`, annotates, then keeps
      `isToday`; a time that does not parse never passes `isToday`, so the
      two filters are taken first here. */
  function UpcomingReminders(rs: seq<Reminder>, now: Now): (r: seq<UpcomingEntry>)
    ensures Sorting.SortedBy(r, EntryTime)
    ensures forall e | e in r :: e.reminder in rs && DueToday(e.reminder, now) && e == EntryOf(e.reminder, now)
    ensures forall rem | rem in rs && DueToday(rem, now) :: EntryOf(rem, now) in r
    ensures forall e | e in r :: e.isToday && !e.isPast && 0 < e.timeUntil <= 24 * 60
    ensures |r| <= |rs|
    ensures multiset(r) == multiset(DueEntries(rs, now))
    ensures forall t :: Sorting.WithKey(r, EntryTime, t) == Sorting.WithKey(DueEntries(rs, now), EntryTime, t)
  {
    var kept := Filter(DueTodayAt(now), rs);
    var r := Sorting.SortBy(Entries(kept, now), EntryTime);
    UpcomingSound(rs, now, kept, r);
    UpcomingComplete(rs, now, kept, r);
    Sorting.SortByStableAll(Entries(kept, now), EntryTime);
    r
  }

  /** The entries of the reminders due today, in list order, before sorting. */
  function DueEntries(rs: seq<Reminder>, now: Now): (es: seq<UpcomingEntry>)
    ensures |es| <= |rs|
  {
    Entries(Filter(DueTodayAt(now), rs), now)
  }

  /** The annotated entries of reminders due today, in their order. */
  function Entries(kept: seq<Reminder>, now: Now): (es: seq<UpcomingEntry>)
    requires forall i :: 0 <= i < |kept| ==> TimeUntil(kept[i], now).Some?
    ensures |es| == |kept| && forall i :: 0 <= i < |kept| ==> es[i] == EntryOf(kept[i], now)
  {
    seq(|kept|, i requires 0 <= i < |kept| => EntryOf(kept[i], now))
  }

  /** Every sorted entry is the entry of a due reminder. */
  lemma UpcomingSound(rs: seq<Reminder>, now: Now, kept: seq<Reminder>, r: seq<UpcomingEntry>)
    requires kept == Filter(DueTodayAt(now), rs)
    requires r == Sorting.SortBy(Entries(kept, now), EntryTime)
    ensures forall e | e in r :: e.reminder in rs && DueToday(e.reminder, now) && e == EntryOf(e.reminder, now)
  {
    var entries := Entries(kept, now);
    forall e | e in r
      ensures e.reminder in rs && DueToday(e.reminder, now) && e == EntryOf(e.reminder, now)
    {
      Sorting.SortByMembers(entries, EntryTime, e);
      var i :| 0 <= i < |entries| && entries[i] == e;
      assert kept[i] in kept && e.reminder == kept[i];
    }
  }

  /** Every due reminder's entry is among the sorted entries. */
  lemma UpcomingComplete(rs: seq<Reminder>, now: Now, kept: seq<Reminder>, r: seq<UpcomingEntry>)
    requires kept == Filter(DueTodayAt(now), rs)
    requires r == Sorting.SortBy(Entries(kept, now), EntryTime)
    ensures forall rem | rem in rs && DueToday(rem, now) :: EntryOf(rem, now) in r
  {
    var entries := Entries(kept, now);
    forall rem | rem in rs && DueToday(rem, now)
      ensures EntryOf(rem, now) in r
    {
      assert DueTodayAt(now)(rem);
      var i :| 0 <= i < |kept| && kept[i] == rem;
      assert entries[i] == EntryOf(rem, now);
      Sorting.SortByMembers(entries, EntryTime, EntryOf(rem, now));
    }
  }

  /** The status getReminderStatus reports. */
  datatype Status = Disabled | Past | Upcoming | Scheduled

  /** getReminderStatus: disabled, past earlier today, upcoming within the
      hour (now included), else scheduled; a time that does not parse fails
      both comparisons and reads as scheduled. */
  function ReminderStatus(rem: Reminder, now: Now): (s: Status)
    ensures s == Disabled <==> !rem.enabled
    ensures s == Past <==> rem.enabled && TimeUntil(rem, now).Some? && TimeUntil(rem, now).value < 0
    ensures s == Upcoming <==> rem.enabled && TimeUntil(rem, now).Some? && 0 <= TimeUntil(rem, now).value <= 60
  {
    if !rem.enabled then Disabled
    else
      match ParseTime(rem.time)
      case None => Scheduled
      case Some(c) =>
        if MinuteOfDay(c) < MinuteOfDay(now) then Past
        else if MinuteOfDay(c) - MinuteOfDay(now) <= 60 then Upcoming
        else Scheduled
  }

  /** For a reminder with a valid time, the upcoming list and the status
      agree: it is listed exactly when its status is upcoming but not due
      this minute, or scheduled. */
  lemma UpcomingAgreesWithStatus(rs: seq<Reminder>, rem: Reminder, now: Now)
    requires rem in rs && ValidTime(rem.time)
    ensures rem in EntryReminders(UpcomingReminders(rs, now)) <==>
      (ReminderStatus(rem, now) == Upcoming && TimeUntil(rem, now) != Some(0))
      || ReminderStatus(rem, now) == Scheduled
  {
    ListedIffDue(rs, rem, now);
    DueIffStatus(rem, now);
  }

  /** A reminder of the list is listed exactly when it is due today. */
  lemma ListedIffDue(rs: seq<Reminder>, rem: Reminder, now: Now)
    requires rem in rs
    ensures rem in EntryReminders(UpcomingReminders(rs, now)) <==> DueToday(rem, now)
  {
    var r := UpcomingReminders(rs, now);
    if DueToday(rem, now) {
      var e := EntryOf(rem, now);
      var i :| 0 <= i < |r| && r[i] == e;
      assert EntryReminders(r)[i] == rem;
    }
    if rem in EntryReminders(r) {
      var i :| 0 <= i < |r| && EntryReminders(r)[i] == rem;
      assert r[i] in r;
    }
  }

  /** With a valid time, being due today is being upcoming but not due this
      minute, or scheduled. */
  lemma DueIffStatus(rem: Reminder, now: Now)
    requires ValidTime(rem.time)
    ensures DueToday(rem, now) <==>
      (ReminderStatus(rem, now) == Upcoming && TimeUntil(rem, now) != Some(0))
      || ReminderStatus(rem, now) == Scheduled
  {
    ValidTimeParses(rem.time);
  }

  /** A reminder that fires is, by its status, upcoming or a minute past. */
  lemma FiringIsUpcomingOrJustPast(rem: Reminder, now: Now)
    requires ShouldFire(rem, now)
    ensures ReminderStatus(rem, now) == Upcoming || (ReminderStatus(rem, now) == Past && TimeUntil(rem, now) == Some(-1))
  {
  }

  /** The phrase formatTimeUntil picks, with the numbers it fills in. */
  datatype TimeText =
    | PastDue
    | InMinutes(minutes: int)
    | InHours(hours: int)
    | InHoursPlural(hours: int)
    | InHoursMinutes(hours: int, minutes: int)

  /** formatTimeUntil, for the whole minutes it is called with. */
  function FormatTimeUntil(minutes: int): (r: TimeText)
    ensures r == PastDue <==> minutes < 0
    ensures r.InMinutes? <==> 0 <= minutes < 60
    ensures r.InHours? ==> r.hours == 1
    ensures r.InHoursPlural? ==> r.hours > 1
    ensures r.InHoursMinutes? ==> r.hours >= 1 && 0 < r.minutes < 60
  {
    if minutes < 0 then PastDue
    else if minutes < 60 then InMinutes(minutes)
    else
      var hours := minutes / 60;
      var remaining := minutes % 60;
      if remaining == 0 then
        if hours > 1 then InHoursPlural(hours) else InHours(hours)
      else InHoursMinutes(hours, remaining)
  }

  /** The minutes a phrase stands for. */
  function PhraseMinutes(t: TimeText): int {
    match t
    case PastDue => -1
    case InMinutes(m) => m
    case InHours(h) => h * 60
    case InHoursPlural(h) => h * 60
    case InHoursMinutes(h, m) => h * 60 + m
  }

  /** No minutes are lost: the phrase for a non-negative count reads back as that count. */
  lemma FormatTimeUntilReadsBack(minutes: int)
    requires minutes >= 0
    ensures PhraseMinutes(FormatTimeUntil(minutes)) == minutes
  {
    if minutes >= 60 {
      assert minutes == (minutes / 60) * 60 + minutes % 60;
    }
  }
}
