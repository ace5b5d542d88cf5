/**
 * The canonical wire form of a wall-clock time: a zero-padded 24-hour "HH:MM" string, as the
 * clock picker emits it on confirm and the availability editor offers it in its drop-downs.
 */
module TimeOfDay {
  import opened Text

  /** `${pad2(h)}:${pad2(m)}`. */
  function Format(h: nat, m: nat): (s: string)
    ensures h < 100 && m < 100 ==> |s| == 5 && s[2] == ':'
  {
    PadStart2(h) + ":" + PadStart2(m)
  }

  /** Splitting a formatted time at ':' gives back its two zero-padded fields. */
  lemma {:induction false} FormatSplits(h: nat, m: nat)
    ensures Split(Format(h, m), ':') == [PadStart2(h), PadStart2(m)]
    ensures DigitsValue(Split(Format(h, m), ':')[0]) == h
    ensures DigitsValue(Split(Format(h, m), ':')[1]) == m
  {
    var parts := [PadStart2(h), PadStart2(m)];
    forall k | 0 <= k < |parts| ensures ':' !in parts[k] {
      NoColonInDigits(parts[k]);
    }
    assert Join(parts, ":") == Format(h, m);
    SplitJoin(parts, ':');
  }

  lemma NoColonInDigits(s: string)
    requires AllDigits(s)
    ensures ':' !in s
  {
    forall i | 0 <= i < |s| ensures s[i] != ':' {
      assert IsDigit(s[i]);
    }
  }
}
