/**
 * The availability editor: the `{days, months, time_slots}` value a seeker or a job post
 * carries, and the edits the editor hands back to its owner (toggle a day or month, select or
 * clear a whole group, add, remove or change a shift, and the 30-minute time choices).
 */
module AvailabilityEditor {
  import opened Wrappers
  import opened Text
  import opened Lists
  import TimeOfDay
  import Matching

  /** One shift as the editor holds it; an unchosen end is "". */
  datatype TimeSlot = TimeSlot(start: string, end: string)

  datatype AvailabilityValue = AvailabilityValue(days: seq<string>, months: seq<string>, timeSlots: seq<TimeSlot>)

  /** The value as received: any of the three fields may be missing or null. */
  datatype RawAvailability = RawAvailability(days: Option<seq<string>>, months: Option<seq<string>>, timeSlots: Option<seq<TimeSlot>>)

  const Days: seq<string> := ["Mon", "Tue", "Wed", "Thu", "Fri", "Sat", "Sun"]
  const Months: seq<string> := ["Jan", "Feb", "Mar", "Apr", "May", "Jun", "Jul", "Aug", "Sep", "Oct", "Nov", "Dec"]

  /** The editor's working copy: a missing field reads as the empty list. */
  function Normalize(value: Option<RawAvailability>): (data: AvailabilityValue)
    ensures value.None? ==> data == AvailabilityValue([], [], [])
    ensures value.Some? ==>
      (value.value.days.None? ==> data.days == []) &&
      (value.value.months.None? ==> data.months == []) &&
      (value.value.timeSlots.None? ==> data.timeSlots == []) &&
      (value.value.days.Some? ==> data.days == value.value.days.value) &&
      (value.value.months.Some? ==> data.months == value.value.months.value) &&
      (value.value.timeSlots.Some? ==> data.timeSlots == value.value.timeSlots.value)
  {
    match value
    case None => AvailabilityValue([], [], [])
    case Some(raw) => AvailabilityValue(raw.days.GetOr([]), raw.months.GetOr([]), raw.timeSlots.GetOr([]))
  }

  // ---------------------------------------------------------------- days and months

  datatype Category = DaysGroup | MonthsGroup

  function ListOf(data: AvailabilityValue, c: Category): seq<string> {
    match c
    case DaysGroup => data.days
    case MonthsGroup => data.months
  }

  function WithList(data: AvailabilityValue, c: Category, l: seq<string>): AvailabilityValue {
    match c
    case DaysGroup => data.(days := l)
    case MonthsGroup => data.(months := l)
  }

  /** The items a group's "Select All" button offers. */
  function Domain(c: Category): (d: seq<string>)
    ensures d != []
  {
    match c
    case DaysGroup => Days
    case MonthsGroup => Months
  }

  /** The other group. */
  function Other(c: Category): Category {
    match c
    case DaysGroup => MonthsGroup
    case MonthsGroup => DaysGroup
  }

  /**
   * `toggleItem`: a selected item is removed everywhere it occurs, an unselected one is appended
   * at the end; the other group and the shifts are left alone.
   */
  function ToggleItem(data: AvailabilityValue, c: Category, item: string): (r: AvailabilityValue)
    ensures item in ListOf(r, c) <==> item !in ListOf(data, c)
    ensures forall y :: y != item ==> (y in ListOf(r, c) <==> y in ListOf(data, c))
    ensures item !in ListOf(data, c) ==> ListOf(r, c) == ListOf(data, c) + [item]
    ensures item in ListOf(data, c) ==> IsSubsequence(ListOf(r, c), ListOf(data, c))
    ensures item in ListOf(data, c) ==> forall y :: y != item ==> multiset(ListOf(r, c))[y] == multiset(ListOf(data, c))[y]
    ensures ListOf(r, Other(c)) == ListOf(data, Other(c)) && r.timeSlots == data.timeSlots
  {
    var r := WithList(data, c, Toggle(ListOf(data, c), item));
    assert ListOf(r, c) == Toggle(ListOf(data, c), item);
    r
  }

  /** Toggling an unselected item on and off again gives back exactly the value it started from. */
  lemma ToggleItemTwiceRestores(data: AvailabilityValue, c: Category, item: string)
    requires item !in ListOf(data, c)
    ensures ToggleItem(ToggleItem(data, c, item), c, item) == data
  {
    ToggleTwiceRestores(ListOf(data, c), item);
  }

  /** Every item of `domain` is already selected. */
  predicate AllSelected(current: seq<string>, domain: seq<string>) {
    forall i :: 0 <= i < |domain| ==> domain[i] in current
  }

  /** `toggleAll`: clear the group when all of it is selected, otherwise select exactly the whole group. */
  function ToggleAll(data: AvailabilityValue, c: Category): (r: AvailabilityValue)
    ensures ListOf(r, c) == [] || ListOf(r, c) == Domain(c)
    ensures ListOf(r, c) == [] <==> AllSelected(ListOf(data, c), Domain(c))
    ensures ListOf(r, Other(c)) == ListOf(data, Other(c)) && r.timeSlots == data.timeSlots
  {
    var newList := if AllSelected(ListOf(data, c), Domain(c)) then [] else Domain(c);
    var r := WithList(data, c, newList);
    assert ListOf(r, c) == newList;
    r
  }

  /** Pressing "Select All" and then "Deselect All" leaves the group empty. */
  lemma ToggleAllTwiceClears(data: AvailabilityValue, c: Category)
    requires !AllSelected(ListOf(data, c), Domain(c))
    ensures ListOf(ToggleAll(data, c), c) == Domain(c)
    ensures ListOf(ToggleAll(ToggleAll(data, c), c), c) == []
  {
    var once := ToggleAll(data, c);
    assert AllSelected(ListOf(once, c), Domain(c)) by {
      forall i | 0 <= i < |Domain(c)| ensures Domain(c)[i] in ListOf(once, c) {
      }
    }
  }

  // ---------------------------------------------------------------- shifts

  /** `addTimeSlot`: one blank shift appended. */
  function AddTimeSlot(data: AvailabilityValue): (r: AvailabilityValue)
    ensures |r.timeSlots| == |data.timeSlots| + 1
    ensures r.timeSlots[..|data.timeSlots|] == data.timeSlots
    ensures r.timeSlots[|data.timeSlots|] == TimeSlot("", "")
    ensures r.days == data.days && r.months == data.months
  {
    data.(timeSlots := data.timeSlots + [TimeSlot("", "")])
  }

  /** The elements whose position is not `i` (`s.filter((_, j) => j !== i)`). */
  function DropIndex<T>(s: seq<T>, i: int): (r: seq<T>)
    ensures 0 <= i < |s| ==> r == s[..i] + s[i + 1..]
    ensures !(0 <= i < |s|) ==> r == s
    decreases |s|
  {
    if s == [] then []
    else
      var rest := DropIndex(s[1..], i - 1);
      if i == 0 then
        rest
      else
        assert 0 < i < |s| ==> s[1..][..i - 1] + s[1..][i..] == s[1..i] + s[i + 1..];
        assert s == [s[0]] + s[1..];
        [s[0]] + rest
  }

  /** `removeTimeSlot(i)`: the shift at `i` goes and the rest keep their order; any other `i` changes nothing. */
  function RemoveTimeSlot(data: AvailabilityValue, i: int): (r: AvailabilityValue)
    ensures 0 <= i < |data.timeSlots| ==>
      |r.timeSlots| == |data.timeSlots| - 1 &&
      r.timeSlots[..i] == data.timeSlots[..i] && r.timeSlots[i..] == data.timeSlots[i + 1..]
    ensures !(0 <= i < |data.timeSlots|) ==> r == data
    ensures r.days == data.days && r.months == data.months
  {
    data.(timeSlots := DropIndex(data.timeSlots, i))
  }

  /** Removing the shift just added gives back the value before the addition. */
  lemma AddThenRemoveRestores(data: AvailabilityValue)
    ensures RemoveTimeSlot(AddTimeSlot(data), |data.timeSlots|) == data
  {
    var added := AddTimeSlot(data).timeSlots;
    assert added[..|data.timeSlots|] + added[|data.timeSlots| + 1..] == data.timeSlots;
  }

  datatype SlotField = Start | End

  function FieldOf(t: TimeSlot, f: SlotField): string {
    match f
    case Start => t.start
    case End => t.end
  }

  /**
   * `updateTimeSlot(i, field, v)`: the shifts are copied, entry `i` is replaced by a copy with
   * `field` set to `v`, and the copy is handed back.
   */
  method UpdateTimeSlot(data: AvailabilityValue, index: nat, field: SlotField, v: string) returns (r: AvailabilityValue)
    requires index < |data.timeSlots|
    ensures |r.timeSlots| == |data.timeSlots|
    ensures FieldOf(r.timeSlots[index], field) == v
    ensures field == Start ==> r.timeSlots[index].end == data.timeSlots[index].end
    ensures field == End ==> r.timeSlots[index].start == data.timeSlots[index].start
    ensures forall j :: 0 <= j < |data.timeSlots| && j != index ==> r.timeSlots[j] == data.timeSlots[j]
    ensures r.days == data.days && r.months == data.months
  {
    var slots := data.timeSlots;
    var newSlots := new TimeSlot[|slots|](j requires 0 <= j < |slots| => slots[j]);
    var current := newSlots[index];
    newSlots[index] := match field
      case Start => current.(start := v)
      case End => current.(end := v);
    r := data.(timeSlots := newSlots[..]);
  }

  // ---------------------------------------------------------------- time choices

  /** Entry `k` of the time drop-down: hour k/2, minute 0 or 30. */
  function OptionAt(k: nat): string {
    TimeOfDay.Format(k / 2, 30 * (k % 2))
  }

  lemma OptionAtStep(h: nat, half: nat)
    requires half < 2
    ensures OptionAt(2 * h + half) == PadStart2(h) + ":" + PadStart2(30 * half)
  {
    assert (2 * h + half) / 2 == h && (2 * h + half) % 2 == half;
  }

  /** The drop-down choices, built by two nested loops over the hour and the half hour. */
  method TimeOptions() returns (opts: seq<string>)
    ensures |opts| == 48
    ensures forall k :: 0 <= k < |opts| ==> opts[k] == OptionAt(k)
  {
    opts := [];
    var h := 0;
    while h < 24
      invariant 0 <= h <= 24
      invariant |opts| == 2 * h
      invariant forall k :: 0 <= k < |opts| ==> opts[k] == OptionAt(k)
    {
      var m := 0;
      ghost var half := 0;
      while m < 60
        invariant 0 <= half <= 2 && m == 30 * half
        invariant |opts| == 2 * h + half
        invariant forall k :: 0 <= k < |opts| ==> opts[k] == OptionAt(k)
      {
        var hour := PadStart2(h);
        var minute := PadStart2(m);
        OptionAtStep(h, half);
        opts := opts + [hour + ":" + minute];
        m := m + 30;
        half := half + 1;
      }
      h := h + 1;
    }
  }

  /** Every choice is a five-character "HH:MM" whose hour field reads 0..23 and whose minute field reads 0 or 30. */
  lemma OptionShape(k: nat)
    requires k < 48
    ensures |OptionAt(k)| == 5 && OptionAt(k)[2] == ':'
    ensures AllDigits(OptionAt(k)[..2]) && DigitsValue(OptionAt(k)[..2]) == k / 2 <= 23
    ensures AllDigits(OptionAt(k)[3..]) && DigitsValue(OptionAt(k)[3..]) in {0, 30}
    ensures Split(OptionAt(k), ':') == [PadStart2(k / 2), PadStart2(30 * (k % 2))]
  {
    TimeOfDay.FormatSplits(k / 2, 30 * (k % 2));
  }

  /** Choice `k` is read by the matching engine as minute 30·k of the day. */
  lemma OptionMinutes(k: nat)
    ensures Matching.TimeToMinutes(Some(OptionAt(k))) == Some(30 * k)
  {
    Matching.TimeToMinutesOfFormat(k / 2, 30 * (k % 2));
  }

  /** The choices are in strictly increasing time order. */
  lemma OptionsIncreasing(i: nat, j: nat)
    requires i < j
    ensures Matching.TimeToMinutes(Some(OptionAt(i))).Some? && Matching.TimeToMinutes(Some(OptionAt(j))).Some?
    ensures Matching.TimeToMinutes(Some(OptionAt(i))).value < Matching.TimeToMinutes(Some(OptionAt(j))).value
  {
    OptionMinutes(i);
    OptionMinutes(j);
  }

  /** The shift as the matching engine reads it. */
  function AsMatchingSlot(t: TimeSlot): Matching.Slot {
    Matching.Slot(Some(t.start), Some(t.end))
  }

  /** A blank shift, as `addTimeSlot` creates it, is contained in no shift and contains none. */
  lemma BlankSlotNeverFits(other: Matching.Slot)
    ensures !Matching.IsSlotContained(AsMatchingSlot(TimeSlot("", "")), other)
    ensures !Matching.IsSlotContained(other, AsMatchingSlot(TimeSlot("", "")))
  {
    assert Split("", ':') == [""];
  }

  /** A shift whose ends are both picked from the drop-down is contained in itself. */
  lemma PickedSlotFitsItself(i: nat, j: nat)
    ensures Matching.IsSlotContained(AsMatchingSlot(TimeSlot(OptionAt(i), OptionAt(j))), AsMatchingSlot(TimeSlot(OptionAt(i), OptionAt(j))))
  {
    OptionMinutes(i);
    OptionMinutes(j);
  }
}
