/**
 * The clock-face time picker: a closed/open state machine holding an hour (0..23 once a face
 * number is chosen), a minute, an AM/PM flag and the face being shown. It re-reads its value
 * whenever the value or the open state changes, and reports a zero-padded "HH:MM" only when
 * the user confirms.
 */
module ClockPicker {
  import opened Wrappers
  import opened Text
  import TimeOfDay

  datatype Mode = HoursFace | MinutesFace
  datatype Meridiem = AM | PM

  /** `h >= 12 ? 'PM' : 'AM'`. */
  function MeridiemOf(h: nat): (p: Meridiem)
    ensures p == PM <==> h >= 12
  {
    if h >= 12 then PM else AM
  }

  /** `hours % 12 || 12`: the hour as read on a twelve-hour clock. */
  function DisplayHour(h: nat): (d: nat)
    ensures 1 <= d <= 12
    ensures d % 12 == h % 12
  {
    if h % 12 == 0 then 12 else h % 12
  }

  /** A twelve-hour reading and AM/PM as an hour of the day: 12 AM is midnight, 12 PM is noon. */
  function To24(reading: nat, p: Meridiem): (h: nat)
    requires 1 <= reading <= 12
    ensures h <= 23
    ensures h >= 12 <==> p == PM
    ensures DisplayHour(h) == reading
  {
    if p == PM then (if reading == 12 then 12 else reading + 12)
    else (if reading == 12 then 0 else reading)
  }

  /** Every hour of the day is recovered from its twelve-hour reading and its AM/PM flag. */
  lemma To24OfDisplayHour(h: nat)
    requires h <= 23
    ensures To24(DisplayHour(h), MeridiemOf(h)) == h
  {
  }

  const HourLabels: seq<nat> := [12, 1, 2, 3, 4, 5, 6, 7, 8, 9, 10, 11]
  const MinuteLabels: seq<nat> := [0, 5, 10, 15, 20, 25, 30, 35, 40, 45, 50, 55]

  /** The numbers the face shows in a mode. */
  function Labels(m: Mode): seq<nat> {
    match m
    case HoursFace => HourLabels
    case MinutesFace => MinuteLabels
  }

  /**
   * The hour and minute the picker reads from its value: "" stands for "09:00", and the first
   * two ':'-separated pieces must be runs of decimal digits. None marks every other string.
   */
  function ParsePickerValue(value: string): (r: Option<(nat, nat)>)
    ensures r.Some? ==> value == "" || ':' in value
  {
    var time := if value == "" then "09:00" else value;
    var parts := Split(time, ':');
    assert ':' !in time ==> |parts| == 1 by {
      if ':' !in time {
        SplitWithoutSeparator(time, ':');
      }
    }
    if |parts| >= 2 && parts[0] != [] && AllDigits(parts[0]) && parts[1] != [] && AllDigits(parts[1]) then
      Some((DigitsValue(parts[0]), DigitsValue(parts[1])))
    else None
  }

  /** An empty value reads as nine o'clock. */
  lemma EmptyValueMeansNine()
    ensures ParsePickerValue("") == Some((9, 0))
  {
    SplitJoin(["09", "00"], ':');
    assert Join(["09", "00"], ":") == "09:00";
    assert "09"[..1] == "0" && "00"[..1] == "0" && "0"[..0] == "";
    assert DigitsValue("09") == 9 && DigitsValue("00") == 0;
  }

  /** What confirming emits reads back as the confirmed hour and minute. */
  lemma ParseFormatted(h: nat, m: nat)
    ensures ParsePickerValue(TimeOfDay.Format(h, m)) == Some((h, m))
  {
    TimeOfDay.FormatSplits(h, m);
  }

  /** `formatTo12h`: the twelve-hour reading, ':', the two-digit minute, a space and AM or PM. */
  function FormatTo12h(h24: nat, mm: nat): (s: string)
    ensures |s| >= 3 && s[|s| - 3] == ' '
    ensures s[|s| - 2..] == (if h24 >= 12 then "PM" else "AM")
  {
    NatToString(DisplayHour(h24)) + ":" + PadStart2(mm) + " " + (if h24 >= 12 then "PM" else "AM")
  }

  /** Reads a "h:mm AM" / "h:mm PM" text back as an hour of the day and a minute. */
  function Parse12h(s: string): Option<(nat, nat)> {
    var parts := Split(s, ':');
    if |parts| != 2 then None
    else
      var a, b := parts[0], parts[1];
      if a == [] || !AllDigits(a) || !(1 <= DigitsValue(a) <= 12) then None
      else if |b| != 5 || b[2] != ' ' || !AllDigits(b[..2]) then None
      else if b[3..] == "AM" then Some((To24(DigitsValue(a), AM), DigitsValue(b[..2])))
      else if b[3..] == "PM" then Some((To24(DigitsValue(a), PM), DigitsValue(b[..2])))
      else None
  }

  /** Reading a "reading:mm AM/PM" text whose two pieces have the expected shape. */
  lemma Parse12hOfPieces(s: string, a: string, b: string, p: Meridiem)
    requires Split(s, ':') == [a, b]
    requires a != [] && AllDigits(a) && 1 <= DigitsValue(a) <= 12
    requires |b| == 5 && b[2] == ' ' && AllDigits(b[..2])
    requires b[3..] == (if p == PM then "PM" else "AM")
    ensures Parse12h(s) == Some((To24(DigitsValue(a), p), DigitsValue(b[..2])))
  {
  }

  /** The twelve-hour display loses nothing: it reads back as the hour and minute it shows. */
  lemma FormatTo12hRoundTrip(h24: nat, mm: nat)
    requires h24 <= 23 && mm <= 59
    ensures Parse12h(FormatTo12h(h24, mm)) == Some((h24, mm))
  {
    var a := NatToString(DisplayHour(h24));
    var p := MeridiemOf(h24);
    var suffix := if h24 >= 12 then "PM" else "AM";
    var b := PadStart2(mm) + " " + suffix;
    var s := FormatTo12h(h24, mm);
    assert s == a + ":" + b;
    TimeOfDay.NoColonInDigits(a);
    assert ':' !in b by {
      TimeOfDay.NoColonInDigits(PadStart2(mm));
      assert forall i :: 0 <= i < |b| ==> b[i] != ':';
    }
    SplitJoin([a, b], ':');
    assert Join([a, b], ":") == s;
    assert b[..2] == PadStart2(mm) && b[3..] == suffix;
    Parse12hOfPieces(s, a, b, p);
    To24OfDisplayHour(h24);
  }

  /** The picker's state. `emitted` records every value reported to the owner, in order. */
  class Picker {
    var value: string
    var isOpen: bool
    var mode: Mode
    var hours: nat
    var minutes: nat
    var ampm: Meridiem
    var emitted: seq<string>

    /** The value is one the picker can read, and AM/PM agrees with the hour. */
    ghost predicate Valid()
      reads this
    {
      ParsePickerValue(value).Some? && (hours >= 12 <==> ampm == PM)
    }

    /** Hour, minute and AM/PM are what the value reads as. */
    ghost predicate Synced()
      reads this
    {
      ParsePickerValue(value) == Some((hours, minutes)) && ampm == MeridiemOf(hours)
    }

    /** Mounting: closed, on the hour face, then synchronised with the initial value. */
    constructor(v: string)
      requires ParsePickerValue(v).Some?
      ensures Valid() && Synced()
      ensures value == v && !isOpen && mode == HoursFace && emitted == []
    {
      value := v;
      isOpen := false;
      mode := HoursFace;
      hours, minutes, ampm := 0, 0, AM;
      emitted := [];
      new;
      Sync();
    }

    /** The synchronising effect: read hour and minute from the value, AM/PM from the hour. */
    method Sync()
      requires ParsePickerValue(value).Some?
      modifies this
      ensures Valid() && Synced()
      ensures value == old(value) && isOpen == old(isOpen) && mode == old(mode) && emitted == old(emitted)
    {
      var time := if value == "" then "09:00" else value;
      var parts := Split(time, ':');
      var h, m := DigitsValue(parts[0]), DigitsValue(parts[1]);
      hours := h;
      minutes := m;
      ampm := if h >= 12 then PM else AM;
    }

    /** The owner passes a value; the effect runs only when it differs from the previous one. */
    method SetValue(v: string)
      requires Valid() && ParsePickerValue(v).Some?
      modifies this
      ensures Valid() && value == v
      ensures v != old(value) ==> Synced()
      ensures v == old(value) ==> hours == old(hours) && minutes == old(minutes) && ampm == old(ampm)
      ensures isOpen == old(isOpen) && mode == old(mode) && emitted == old(emitted)
    {
      if v != value {
        value := v;
        Sync();
      }
    }

    /** The activation button: flip the open state, go back to the hour face, and re-read the value. */
    method ToggleOpen()
      requires Valid()
      modifies this
      ensures Valid() && Synced()
      ensures isOpen == !old(isOpen) && mode == HoursFace
      ensures value == old(value) && emitted == old(emitted)
    {
      isOpen := !isOpen;
      mode := HoursFace;
      Sync();
    }

    /**
     * Cancel, the backdrop, or a press outside the picker: close without reporting anything.
     * Closing an open picker re-reads the value, dropping the unconfirmed choice.
     */
    method Close()
      requires Valid()
      modifies this
      ensures Valid() && !isOpen
      ensures old(isOpen) ==> Synced()
      ensures !old(isOpen) ==> hours == old(hours) && minutes == old(minutes) && ampm == old(ampm)
      ensures value == old(value) && mode == old(mode) && emitted == old(emitted)
    {
      if isOpen {
        isOpen := false;
        Sync();
      }
    }

    /** A mouse press anywhere on the page; only one outside the picker closes it. */
    method MouseDown(inside: bool)
      requires Valid()
      modifies this
      ensures Valid()
      ensures inside ==> isOpen == old(isOpen) && hours == old(hours) && minutes == old(minutes) && ampm == old(ampm)
      ensures !inside ==> !isOpen && (old(isOpen) ==> Synced())
      ensures value == old(value) && mode == old(mode) && emitted == old(emitted)
    {
      if !inside {
        Close();
      }
    }

    /** Pressing the hour or the minute read-out switches the face. */
    method ShowFace(m: Mode)
      modifies this
      ensures mode == m
      ensures value == old(value) && isOpen == old(isOpen) && hours == old(hours) && minutes == old(minutes)
      ensures ampm == old(ampm) && emitted == old(emitted)
    {
      mode := m;
    }

    /**
     * `handleSelect`: on the hour face the number becomes an hour of the day under the current
     * AM/PM and the minute face comes up; on the minute face the number becomes the minute.
     */
    method Select(v: nat)
      requires Valid() && v in Labels(mode)
      modifies this
      ensures Valid()
      ensures old(mode) == HoursFace ==>
        hours == To24(v, ampm) && hours <= 23 && DisplayHour(hours) == v && mode == MinutesFace && minutes == old(minutes)
      ensures old(mode) == MinutesFace ==> minutes == v && hours == old(hours) && mode == MinutesFace
      ensures value == old(value) && isOpen == old(isOpen) && ampm == old(ampm) && emitted == old(emitted)
    {
      if mode == HoursFace {
        assert 1 <= v <= 12;
        var h24 := if ampm == PM then (if v == 12 then 12 else v + 12) else (if v == 12 then 0 else v);
        assert h24 == To24(v, ampm);
        hours := h24;
        mode := MinutesFace;
      } else {
        minutes := v;
      }
    }

    /** `toggleAmpm`: keep the twelve-hour reading, move the hour into the chosen half of the day. */
    method ToggleAmpm(p: Meridiem)
      requires Valid()
      modifies this
      ensures Valid() && ampm == p
      ensures hours == To24(DisplayHour(old(hours)), p)
      ensures DisplayHour(hours) == DisplayHour(old(hours))
      ensures p == PM ==> 12 <= hours <= 23
      ensures p == AM ==> hours <= 11
      ensures value == old(value) && isOpen == old(isOpen) && mode == old(mode) && minutes == old(minutes)
      ensures emitted == old(emitted)
    {
      ampm := p;
      var h12 := if hours % 12 == 0 then 12 else hours % 12;
      hours := if p == PM then (if h12 == 12 then 12 else h12 + 12) else (if h12 == 12 then 0 else h12);
    }

    /**
     * `confirmSelection`: report the zero-padded "HH:MM" once and close. Closing re-reads the
     * value, which the owner replaces with the report when it stores it.
     */
    method Confirm()
      requires Valid() && isOpen
      modifies this
      ensures emitted == old(emitted) + [TimeOfDay.Format(old(hours), old(minutes))]
      ensures ParsePickerValue(emitted[|emitted| - 1]) == Some((old(hours), old(minutes)))
      ensures Valid() && Synced() && !isOpen
      ensures value == old(value) && mode == old(mode)
    {
      var hStr := PadStart2(hours);
      var mStr := PadStart2(minutes);
      emitted := emitted + [hStr + ":" + mStr];
      ParseFormatted(old(hours), old(minutes));
      isOpen := false;
      Sync();
    }
  }
}
