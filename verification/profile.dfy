/**
 * The profile page's handling of the user's name: the account stores a first and a last
 * name, the page shows and edits one "full name" field, and saving splits it again at the
 * first blank. Saving also sends the profile's bio, location and phone number.
 */
module Profile {
  import opened Text

  /** `first_name + (last_name ? ' ' + last_name : '')`. */
  function FullName(first: string, last: string): (r: string)
    ensures last == "" ==> r == first
    ensures last != "" ==> |r| == |first| + 1 + |last| && r[..|first|] == first && r[|first|] == ' ' && r[|first| + 1..] == last
  {
    first + (if last != "" then " " + last else "")
  }

  /**
   * `names = full.split(' ')`, first name `names[0]`, last name `names.slice(1).join(' ')`:
   * the text before the first blank and everything after it.
   */
  function SplitName(full: string): (r: (string, string))
    ensures ' ' !in r.0
    ensures ' ' !in full ==> r == (full, "")
    ensures ' ' in full ==> full == r.0 + " " + r.1
  {
    var names := Split(full, ' ');
    var first, last := names[0], Join(names[1..], " ");
    assert ' ' !in first;
    if |names| == 1 then
      assert full == first;
      (first, last)
    else
      assert full == first + " " + last;
      (first, last)
  }

  /** The part before the first blank of `a + " " + b` is `a` when `a` holds no blank. */
  lemma FirstBlankUnique(a: string, b: string, c: string, d: string)
    requires ' ' !in a && ' ' !in c
    requires a + " " + b == c + " " + d
    ensures a == c && b == d
  {
    SplitAtFirstSeparator(a, ' ', b);
    SplitAtFirstSeparator(c, ' ', d);
    assert Split(b, ' ') == Split(d, ' ');
  }

  /** Splitting a full name built from a blank-free first name gives back both names. */
  lemma SplitFullName(first: string, last: string)
    requires ' ' !in first
    ensures SplitName(FullName(first, last)) == (first, last)
  {
    var full := FullName(first, last);
    var r := SplitName(full);
    if last != "" {
      assert full == first + " " + last;
      assert full[|first|] in full;
      FirstBlankUnique(r.0, r.1, first, last);
    }
  }

  /**
   * The page's own split of the name field, joined again, gives back the text, unless the
   * text ends with its first blank: "Ada " splits into "Ada" and "" and joins to "Ada".
   */
  lemma FullNameOfSplit(full: string)
    ensures ' ' !in full || SplitName(full).1 != "" ==> FullName(SplitName(full).0, SplitName(full).1) == full
    ensures ' ' in full && SplitName(full).1 == "" ==> FullName(SplitName(full).0, SplitName(full).1) == full[..|full| - 1]
  {
    var r := SplitName(full);
    if ' ' in full && r.1 == "" {
      assert full == r.0 + " ";
      assert full[..|full| - 1] == r.0;
    }
  }

  /** The profile form. */
  datatype ProfileForm = ProfileForm(bio: string, location: string, phoneNumber: string, fullName: string)

  /** The body of the profile update: the bio, the location and the phone number, nothing else. */
  datatype ProfilePatch = ProfilePatch(bio: string, location: string, phoneNumber: string)

  /** The body of the account update. */
  datatype NamePatch = NamePatch(firstName: string, lastName: string)

  /** After loading: the account's names shown as one field, the rest of the form as loaded. */
  function WithAccountName(form: ProfileForm, first: string, last: string): (r: ProfileForm)
    ensures r.bio == form.bio && r.location == form.location && r.phoneNumber == form.phoneNumber
    ensures r.fullName == FullName(first, last)
  {
    form.(fullName := FullName(first, last))
  }

  /** `handleSave`: the profile update and the account update it sends, in that order. */
  function SaveRequests(form: ProfileForm): (r: (ProfilePatch, NamePatch))
    ensures r.0 == ProfilePatch(form.bio, form.location, form.phoneNumber)
    ensures ' ' !in r.1.firstName
    ensures ' ' in form.fullName ==> form.fullName == r.1.firstName + " " + r.1.lastName
    ensures ' ' !in form.fullName ==> r.1 == NamePatch(form.fullName, "")
  {
    var (first, last) := SplitName(form.fullName);
    (ProfilePatch(form.bio, form.location, form.phoneNumber), NamePatch(first, last))
  }

  /** Saving a freshly loaded page sends requests that carry the loaded names and profile fields. */
  lemma LoadThenSave(form: ProfileForm, first: string, last: string)
    requires ' ' !in first
    ensures SaveRequests(WithAccountName(form, first, last)) ==
      (ProfilePatch(form.bio, form.location, form.phoneNumber), NamePatch(first, last))
  {
    SplitFullName(first, last);
  }
}
