/** The weekday picker of src/components/DaySelector.jsx as a state
    machine over its two pieces of React state. A handler answers the next
    state and the value it hands to `onChange`, if any. */
module DaySelector {
  import opened Common
  import opened Model
  import opened DayUtils

  datatype Selector = Selector(isEveryDay: bool, selectedDays: seq<string>)

  /** The answer of a handler: the next state, and what `onChange` received. */
  datatype Step = Step(next: Selector, emitted: Option<ActiveDays>)

  /** The value a state stands for: `'all'`, or the selected days. */
  function ValueOf(s: Selector): ActiveDays {
    if s.isEveryDay then All else Days(s.selectedDays)
  }

  /** The states the handlers keep: every-day mode with nothing selected, or
      one to six distinct day names. */
  predicate Inv(s: Selector) {
    if s.isEveryDay then s.selectedDays == []
    else 0 < |s.selectedDays| < 7 && NoDups(s.selectedDays) && forall n | n in s.selectedDays :: IsDayName(n)
  }

  /** The prop sync effect: every-day mode exactly when the prop normalises to `'all'`. */
  function FromProp(activeDays: ActiveDays): (s: Selector)
    ensures s.isEveryDay <==> NormalizeActiveDays(activeDays) == All
    ensures !s.isEveryDay ==> Days(s.selectedDays) == NormalizeActiveDays(activeDays)
    ensures s.isEveryDay ==> s.selectedDays == []
  {
    match NormalizeActiveDays(activeDays)
    case Days(days) => Selector(false, days)
    case _ => Selector(true, [])
  }

  /** handleEveryDayToggle: into every-day mode clears the selection and
      emits `'all'`; out of it selects and emits all seven days. */
  function EveryDayToggle(s: Selector): (r: Step)
    ensures !s.isEveryDay ==> r == Step(Selector(true, []), Some(All))
    ensures s.isEveryDay ==> r.next == Selector(false, AllDays()) && r.emitted == Some(Days(AllDays()))
  {
    if !s.isEveryDay then Step(Selector(true, []), Some(All))
    else Step(Selector(false, AllDays()), Some(Days(AllDays())))
  }

  /** handleDayToggle: nothing happens in every-day mode or when the only
      selected day would be deselected; otherwise the day is removed or
      appended, and a seventh day switches to every-day mode. */
  function DayToggle(s: Selector, day: string): (r: Step)
    ensures s.isEveryDay ==> r == Step(s, None)
    ensures !s.isEveryDay && s.selectedDays == [day] ==> r == Step(s, None)
    ensures r.emitted.Some? ==> r.emitted == Some(ValueOf(r.next))
    ensures r.emitted.None? ==> r.next == s
    ensures !s.isEveryDay && r.emitted.Some? && !r.next.isEveryDay ==>
      forall n :: n in r.next.selectedDays <==> (n in s.selectedDays <==> n != day)
    ensures !s.isEveryDay && day !in s.selectedDays && |s.selectedDays| + 1 == 7 ==>
      r == Step(Selector(true, []), Some(All))
    ensures !s.isEveryDay && day !in s.selectedDays && |s.selectedDays| + 1 != 7 ==>
      r == Step(Selector(false, s.selectedDays + [day]), Some(Days(s.selectedDays + [day])))
    ensures !s.isEveryDay && day in s.selectedDays && RemoveAll(s.selectedDays, day) == [] ==>
      r == Step(s, None)
    ensures (!s.isEveryDay && day in s.selectedDays && RemoveAll(s.selectedDays, day) != []
             && |RemoveAll(s.selectedDays, day)| != 7) ==>
      r == Step(Selector(false, RemoveAll(s.selectedDays, day)), Some(Days(RemoveAll(s.selectedDays, day))))
  {
    if s.isEveryDay then Step(s, None)
    else
      var selected := if day in s.selectedDays then RemoveAll(s.selectedDays, day) else s.selectedDays + [day];
      if |selected| == 0 then Step(s, None)
      else if |selected| == 7 then Step(Selector(true, []), Some(All))
      else Step(Selector(false, selected), Some(Days(selected)))
  }

  /** Both handlers keep the invariant, for days the picker offers. */
  lemma TogglesKeepInv(s: Selector, day: string)
    requires Inv(s) && IsDayName(day)
    ensures Inv(DayToggle(s, day).next)
    ensures Inv(EveryDayToggle(s).next) || EveryDayToggle(s).next == Selector(false, AllDays())
  {
    if !s.isEveryDay && day !in s.selectedDays {
      NoDupsCons(day, s.selectedDays);
      assert NoDups(s.selectedDays + [day]);
    }
  }

  /** Whatever a day toggle emits is a value isValidActiveDays accepts. */
  lemma DayToggleEmitsValid(s: Selector, day: string)
    requires Inv(s) && IsDayName(day)
    ensures DayToggle(s, day).emitted.Some? ==> IsValidActiveDays(DayToggle(s, day).emitted.value)
  {
    TogglesKeepInv(s, day);
  }

  /** Handing a day toggle's emission back as the prop reproduces the
      state the toggle left. */
  lemma DayToggleEchoes(s: Selector, day: string)
    requires Inv(s) && IsDayName(day)
    ensures var r := DayToggle(s, day);
      r.emitted.Some? ==> FromProp(r.emitted.value) == r.next
  {
    var r := DayToggle(s, day);
    TogglesKeepInv(s, day);
    if r.emitted.Some? && !r.next.isEveryDay {
      NormalizeValid(Days(r.next.selectedDays));
    }
  }

  /** Leaving every-day mode emits all seven days, and that emission handed
      back as the prop puts the picker straight back into every-day mode. */
  lemma LeavingEveryDayEchoesBack(s: Selector)
    requires s.isEveryDay
    ensures FromProp(EveryDayToggle(s).emitted.value) == Selector(true, [])
  {
    forall i | 0 <= i < 7
      ensures IsDayName(AllDays()[i])
    {
    }
    FilterKeepsAll(IsDayName, AllDays());
  }

  /** Within specific-days mode, toggling the same day twice restores the
      selection when the day was not selected and the selection had room. */
  lemma DayToggleTwice(s: Selector, day: string)
    requires Inv(s) && !s.isEveryDay && day !in s.selectedDays && |s.selectedDays| < 6
    ensures DayToggle(DayToggle(s, day).next, day).next == s
  {
    var t := s.selectedDays + [day];
    assert DayToggle(s, day).next == Selector(false, t);
    RemoveAllSnoc(s.selectedDays, day);
  }
}
