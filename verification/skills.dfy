/**
 * Skill lists as both dashboards edit them: a row of "common" skill chips that toggle on and
 * off, and a free-text field of other skills separated by commas. Loading a saved list splits
 * it into the chips it contains and the rest, written back into the text field joined by ", ";
 * saving puts the selected chips first and the parsed text after them.
 */
module Skills {
  import opened Text
  import opened Lists

  predicate NonEmpty(s: string) {
    s != ""
  }

  function TrimAll(parts: seq<string>): (r: seq<string>)
    ensures |r| == |parts| && forall k :: 0 <= k < |parts| ==> r[k] == Trim(parts[k])
  {
    seq(|parts|, k requires 0 <= k < |parts| => Trim(parts[k]))
  }

  /** `text.split(',').map(s => s.trim()).filter(s => s !== "")`. */
  function ParseSkills(text: string): (r: seq<string>)
    ensures "" !in r
  {
    Filter(TrimAll(Split(text, ',')), NonEmpty)
  }

  /** Every parsed skill is a non-empty, trimmed piece of the text holding no comma. */
  lemma ParsedSkillsShape(text: string)
    ensures forall x :: x in ParseSkills(text) ==> x != "" && IsTrimmed(x) && ',' !in x
  {
    var parts := Split(text, ',');
    forall x | x in ParseSkills(text) ensures x != "" && IsTrimmed(x) && ',' !in x {
      var k :| 0 <= k < |parts| && TrimAll(parts)[k] == x;
      TrimSpec(parts[k]);
      TrimStartSpec(parts[k]);
      TrimEndSpec(TrimStart(parts[k]));
      assert forall i :: 0 <= i < |x| ==> x[i] in parts[k];
    }
  }

  /** The list a save sends: the selected common skills, then the parsed free-text ones. */
  function SavedSkills(selectedCommon: seq<string>, text: string): (r: seq<string>)
    ensures |r| == |selectedCommon| + |ParseSkills(text)|
    ensures r[..|selectedCommon|] == selectedCommon && r[|selectedCommon|..] == ParseSkills(text)
  {
    selectedCommon + ParseSkills(text)
  }

  /** The skills of a saved list that are common ones, in order. */
  function CommonPart(skills: seq<string>, common: seq<string>): seq<string> {
    Filter(skills, s => s in common)
  }

  /** The skills of a saved list that are not common ones, in order. */
  function OtherPart(skills: seq<string>, common: seq<string>): seq<string> {
    FilterNot(skills, s => s in common)
  }

  /** The two parts of a loaded list hold, between them, exactly the skills of the list. */
  lemma PartitionKeepsSkills(skills: seq<string>, common: seq<string>)
    ensures multiset(CommonPart(skills, common)) + multiset(OtherPart(skills, common)) == multiset(skills)
    ensures forall x :: x in CommonPart(skills, common) <==> x in skills && x in common
    ensures forall x :: x in OtherPart(skills, common) <==> x in skills && x !in common
  {
    FilterPartition(skills, s => s in common);
  }

  /** `others.join(', ')`: the text the free-text field shows. */
  function OthersText(others: seq<string>): string {
    Join(others, ", ")
  }

  /** Every part but the first preceded by the blank that follows a comma. */
  function Spaced(parts: seq<string>): (r: seq<string>)
    ensures |r| == |parts| && forall k :: 0 <= k < |parts| ==> r[k] == " " + parts[k]
  {
    seq(|parts|, k requires 0 <= k < |parts| => " " + parts[k])
  }

  lemma {:induction false} JoinSpaced(parts: seq<string>)
    requires |parts| >= 1
    ensures Join(Spaced(parts), ",") == " " + Join(parts, ", ")
    decreases |parts|
  {
    if |parts| > 1 {
      JoinSpaced(parts[1..]);
      assert Spaced(parts)[1..] == Spaced(parts[1..]);
    }
  }

  /** Joining with ", " is joining with "," after putting a blank before every part but the first. */
  lemma JoinCommaSpace(head: string, rest: seq<string>)
    ensures Join([head] + rest, ", ") == Join([head] + Spaced(rest), ",")
  {
    if rest != [] {
      var tail := Join(rest, ", ");
      JoinSpaced(rest);
      var ps := [head] + Spaced(rest);
      assert ps[1..] == Spaced(rest) && ps[0] == head;
      assert ([head] + rest)[1..] == rest;
      calc {
        Join(ps, ",");
        head + "," + Join(Spaced(rest), ",");
        head + "," + (" " + tail);
        { assert head + "," + (" " + tail) == head + ", " + tail; }
        head + ", " + tail;
        Join([head] + rest, ", ");
      }
    }
  }

  /** A skill that can sit in the free-text field and be read back unchanged. */
  predicate PlainSkill(x: string) {
    x != "" && IsTrimmed(x) && ',' !in x
  }

  /** Trimming the comma-separated pieces of the joined text gives the skills back. */
  lemma TrimPieces(others: seq<string>)
    requires |others| >= 1
    requires forall k :: 0 <= k < |others| ==> PlainSkill(others[k])
    ensures TrimAll([others[0]] + Spaced(others[1..])) == others
  {
    var pieces := [others[0]] + Spaced(others[1..]);
    forall k | 0 <= k < |pieces| ensures Trim(pieces[k]) == others[k] {
      TrimOfTrimmed(others[k]);
      if k > 0 {
        assert pieces[k] == [' '] + others[k];
        TrimDropsLeadingSpace(' ', others[k]);
      }
    }
  }

  /**
   * Writing the other skills into the field and parsing the field again gives them back, when
   * each is non-empty, has no blanks at its ends and holds no comma.
   */
  lemma ReparseOthers(others: seq<string>)
    requires forall k :: 0 <= k < |others| ==> PlainSkill(others[k])
    ensures ParseSkills(OthersText(others)) == others
  {
    if others == [] {
      assert Split("", ',') == [""];
      assert TrimAll([""]) == [""];
    } else {
      var pieces := [others[0]] + Spaced(others[1..]);
      JoinCommaSpace(others[0], others[1..]);
      assert [others[0]] + others[1..] == others;
      forall k | 0 <= k < |pieces| ensures ',' !in pieces[k] {
        if k > 0 {
          assert pieces[k] == " " + others[k];
        }
      }
      SplitJoin(pieces, ',');
      TrimPieces(others);
      FilterKeepsAll(others, NonEmpty);
    }
  }

  /**
   * Loading a saved list into the editor and saving it straight away keeps every skill (the
   * common ones move to the front), as long as the other skills are plain.
   */
  lemma LoadThenSaveKeepsSkills(skills: seq<string>, common: seq<string>)
    requires forall x :: x in skills && x !in common ==> PlainSkill(x)
    ensures multiset(SavedSkills(CommonPart(skills, common), OthersText(OtherPart(skills, common)))) == multiset(skills)
  {
    var others := OtherPart(skills, common);
    PartitionKeepsSkills(skills, common);
    assert forall k :: 0 <= k < |others| ==> others[k] in others;
    ReparseOthers(others);
  }
}
