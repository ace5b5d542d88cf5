/**
 * The job/seeker matching engine of the backend: case-insensitive containment of day and
 * month lists, "H:M" parsing, time-slot containment with shifts that cross midnight, and the
 * hard-filter-then-bonus match score.
 *
 * JSON fields that are missing or null are represented by the empty list (every use in the
 * engine treats them the same), and a slot endpoint that is missing or is not a string is
 * `None`.
 */
module Matching {
  import opened Wrappers
  import opened Text
  import TimeOfDay

  // ---------------------------------------------------------------- data

  /** One `{start, end}` entry of `time_slots`. */
  datatype Slot = Slot(start: Option<string>, end: Option<string>)

  /** A job's `requirements` or a seeker's `availability`. */
  datatype Availability = Availability(months: seq<string>, days: seq<string>, timeSlots: seq<Slot>)

  datatype Job = Job(
    id: nat,
    location: string,
    requiredSkills: set<string>,
    requirements: Availability,
    payPerDay: Option<nat>,
    isActive: bool)

  datatype SeekerProfile = SeekerProfile(
    user: nat,
    location: string,
    locations: seq<string>,
    skills: set<string>,
    availability: Availability,
    minPay: Option<nat>,
    maxPay: Option<nat>,
    isAvailable: bool)

  // ---------------------------------------------------------------- days and months

  function LowerSet(items: seq<string>): set<string> {
    set x | x in items :: Lower(x)
  }

  /**
   * `check_containment`: an empty requirement list or an empty availability list always
   * fits; otherwise every requirement must equal some available item ignoring case.
   */
  function CheckContainment(req: seq<string>, avail: seq<string>): (r: bool)
    ensures r <==> (req == [] || avail == [] ||
      forall i :: 0 <= i < |req| ==> exists j :: 0 <= j < |avail| && Lower(avail[j]) == Lower(req[i]))
  {
    if req == [] then true
    else if avail == [] then true
    else
      assert forall i :: 0 <= i < |req| ==>
        (Lower(req[i]) in LowerSet(avail) <==> exists j :: 0 <= j < |avail| && Lower(avail[j]) == Lower(req[i]));
      LowerSet(req) <= LowerSet(avail)
  }

  /** Every list contains itself. */
  lemma CheckContainmentReflexive(items: seq<string>)
    ensures CheckContainment(items, items)
  {
    forall i | 0 <= i < |items|
      ensures exists j :: 0 <= j < |items| && Lower(items[j]) == Lower(items[i])
    {
      assert Lower(items[i]) == Lower(items[i]);
    }
  }

  /** Case does not matter: a requirement "mon" is met by an availability "Mon". */
  lemma CheckContainmentIgnoresCase()
    ensures CheckContainment(["mon"], ["Mon", "Tue"])
  {
    assert Lower("Mon") == "mon";
    assert Lower("mon") == "mon";
  }

  // ---------------------------------------------------------------- times

  /** The value of a non-empty run of decimal digits, or None when `s` is empty or holds a non-digit. */
  function ParseDigits(s: string): (r: Option<nat>)
    ensures r.Some? <==> s != [] && AllDigits(s)
    ensures r.Some? ==> r.value == DigitsValue(s)
    decreases |s|
  {
    if s == [] || !IsDigit(s[|s| - 1]) then None
    else if |s| == 1 then Some(s[0] as int - '0' as int)
    else
      match ParseDigits(s[..|s| - 1])
      case None => None
      case Some(v) => Some(10 * v + (s[|s| - 1] as int - '0' as int))
  }

  /** An integer literal as `int()` reads it once stripped: one or more digits after an optional sign. */
  predicate IsIntLiteral(t: string) {
    (t != [] && AllDigits(t)) || (|t| >= 2 && (t[0] == '+' || t[0] == '-') && AllDigits(t[1..]))
  }

  /** Python `int(s)`: surrounding whitespace, an optional sign, then one or more digits. */
  function ParseInt(s: string): (r: Option<int>)
    ensures r.Some? <==> IsIntLiteral(Strip(s))
    ensures r.Some? && AllDigits(Strip(s)) ==> r.value == DigitsValue(Strip(s))
    ensures r.Some? && Strip(s) != [] && Strip(s)[0] == '+' ==> r.value == DigitsValue(Strip(s)[1..])
    ensures r.Some? && Strip(s) != [] && Strip(s)[0] == '-' ==> r.value == -(DigitsValue(Strip(s)[1..]) as int)
  {
    var t := Strip(s);
    if t != [] && (t[0] == '+' || t[0] == '-') then
      match ParseDigits(t[1..])
      case None => None
      case Some(v) =>
        var n: int := v;
        Some(if t[0] == '-' then -n else n)
    else
      match ParseDigits(t)
      case None => None
      case Some(v) => Some(v)
  }

  lemma {:induction false} ParseIntOfDigits(s: string)
    requires s != [] && AllDigits(s)
    ensures ParseInt(s) == Some(DigitsValue(s))
  {
    assert IsDigit(s[0]) && IsDigit(s[|s| - 1]);
    assert Strip(s) == s;
  }

  /** Python strips the information separators as well: `int("9\x1c")` is 9, where `trim()` would keep the separator. */
  lemma ParseIntStripsSeparators()
    ensures ParseInt("9" + [28 as char]) == Some(9)
  {
    var s := "9" + [28 as char];
    assert StripStart(s) == s;
    assert IsPySpace(s[|s| - 1]) && s[..|s| - 1] == "9";
    assert StripEnd("9") == "9";
    assert Strip(s) == "9";
  }

  /**
   * `time_to_minutes`: "H:M" with exactly one ':' and two integer parts gives 60*H + M;
   * anything else, including a missing or non-string value, gives None.
   */
  function TimeToMinutes(t: Option<string>): (r: Option<int>)
    ensures t.None? ==> r.None?
    ensures r.Some? ==> |Split(t.value, ':')| == 2
  {
    match t
    case None => None
    case Some(s) =>
      var parts := Split(s, ':');
      if |parts| != 2 then None
      else
        match (ParseInt(parts[0]), ParseInt(parts[1]))
        case (Some(h), Some(m)) => Some(h * 60 + m)
        case _ => None
  }

  /** The number of pieces is one more than the number of separators. */
  lemma {:induction false} SplitCount(s: string, sep: char)
    ensures |Split(s, sep)| == multiset(s)[sep] + 1
    decreases |s|
  {
    if s != [] {
      SplitCount(s[1..], sep);
      assert s == [s[0]] + s[1..];
    }
  }

  /** A string without exactly one ':' never parses. */
  lemma TimeNeedsExactlyOneColon(s: string)
    requires multiset(s)[':'] != 1
    ensures TimeToMinutes(Some(s)) == None
  {
    SplitCount(s, ':');
  }

  /** Two runs of digits around one ':' parse to sixty times the first plus the second. */
  lemma {:induction false} TimeToMinutesOfDigits(s: string, hh: string, mm: string)
    requires hh != [] && AllDigits(hh) && mm != [] && AllDigits(mm)
    requires Split(s, ':') == [hh, mm]
    ensures TimeToMinutes(Some(s)) == Some(60 * DigitsValue(hh) + DigitsValue(mm))
  {
    var h, m := DigitsValue(hh), DigitsValue(mm);
    assert ParseInt(hh) == Some(h) by { ParseIntOfDigits(hh); }
    assert ParseInt(mm) == Some(m) by { ParseIntOfDigits(mm); }
    TimeToMinutesOfParts(s, hh, mm, h, m);
  }

  lemma {:induction false} TimeToMinutesOfParts(s: string, hh: string, mm: string, h: int, m: int)
    requires Split(s, ':') == [hh, mm]
    requires ParseInt(hh) == Some(h) && ParseInt(mm) == Some(m)
    ensures TimeToMinutes(Some(s)) == Some(60 * h + m)
  {
  }

  /** Every canonical "HH:MM" string parses to its number of minutes after midnight. */
  lemma {:induction false} TimeToMinutesOfFormat(h: nat, m: nat)
    ensures TimeToMinutes(Some(TimeOfDay.Format(h, m))) == Some(60 * h + m)
  {
    assert Split(TimeOfDay.Format(h, m), ':') == [PadStart2(h), PadStart2(m)] by {
      TimeOfDay.FormatSplits(h, m);
    }
    TimeToMinutesOfPadded(TimeOfDay.Format(h, m), h, m);
  }

  lemma {:induction false} TimeToMinutesOfPadded(s: string, h: nat, m: nat)
    requires Split(s, ':') == [PadStart2(h), PadStart2(m)]
    ensures TimeToMinutes(Some(s)) == Some(60 * h + m)
  {
    var hh, mm := PadStart2(h), PadStart2(m);
    ParseIntOfDigits(hh);
    ParseIntOfDigits(mm);
    TimeToMinutesOfParts(s, hh, mm, h, m);
  }

  // ---------------------------------------------------------------- slots

  /** A slot wraps past midnight when its end is not after its start. */
  predicate Wraps(start: int, end: int) {
    end <= start
  }

  /** The case analysis of `is_slot_contained` once all four endpoints are known. */
  predicate SlotFits(js: int, je: int, ss: int, se: int) {
    var jWraps := Wraps(js, je);
    var sWraps := Wraps(ss, se);
    if !jWraps && !sWraps then js >= ss && je <= se
    else if jWraps && !sWraps then false
    else if !jWraps && sWraps then js >= ss || je <= se
    else js >= ss && je <= se
  }

  /** `is_slot_contained`: false when an endpoint does not parse, else the wrap-aware case analysis. */
  predicate IsSlotContained(job: Slot, seeker: Slot)
    ensures IsSlotContained(job, seeker) ==>
      TimeToMinutes(job.start).Some? && TimeToMinutes(job.end).Some? &&
      TimeToMinutes(seeker.start).Some? && TimeToMinutes(seeker.end).Some?
  {
    var js, je := TimeToMinutes(job.start), TimeToMinutes(job.end);
    var ss, se := TimeToMinutes(seeker.start), TimeToMinutes(seeker.end);
    if js.None? || je.None? || ss.None? || se.None? then false
    else SlotFits(js.value, je.value, ss.value, se.value)
  }

  /** The case table of `is_slot_contained`. */
  lemma SlotFitsCases(js: int, je: int, ss: int, se: int)
    ensures Wraps(js, je) && !Wraps(ss, se) ==> !SlotFits(js, je, ss, se)
    ensures !Wraps(js, je) && Wraps(ss, se) ==> (SlotFits(js, je, ss, se) <==> js >= ss || je <= se)
    ensures Wraps(js, je) == Wraps(ss, se) ==> (SlotFits(js, je, ss, se) <==> js >= ss && je <= se)
  {
  }

  /** A slot with an endpoint that does not parse is contained in nothing and contains nothing. */
  lemma UnparsableSlotNeverFits(job: Slot, seeker: Slot)
    requires TimeToMinutes(job.start).None? || TimeToMinutes(job.end).None? ||
             TimeToMinutes(seeker.start).None? || TimeToMinutes(seeker.end).None?
    ensures !IsSlotContained(job, seeker)
  {
  }

  /** Every slot whose endpoints parse is contained in itself. */
  lemma SlotContainedInItself(s: Slot)
    requires TimeToMinutes(s.start).Some? && TimeToMinutes(s.end).Some?
    ensures IsSlotContained(s, s)
  {
  }

  const MinutesPerDay: int := 1440

  /** Minute `t` of the day falls in the shift [start, end), read around midnight when it wraps. */
  predicate Covers(start: int, end: int, t: int) {
    if start < end then start <= t < end else start <= t || t < end
  }

  /** Every minute of the job's shift is a minute of the seeker's shift. */
  ghost predicate CoveredWithin(js: int, je: int, ss: int, se: int) {
    forall t :: 0 <= t < MinutesPerDay && Covers(js, je, t) ==> Covers(ss, se, t)
  }

  ghost predicate InDay(t: int) {
    0 <= t < MinutesPerDay
  }

  /**
   * For times within one day and a seeker shift whose start and end differ, the case
   * analysis of `is_slot_contained` is exactly minute-by-minute containment of the shifts.
   */
  lemma SlotFitsMeansCovered(js: int, je: int, ss: int, se: int)
    requires InDay(js) && InDay(je) && InDay(ss) && InDay(se)
    requires ss != se
    ensures SlotFits(js, je, ss, se) <==> CoveredWithin(js, je, ss, se)
  {
    if !SlotFits(js, je, ss, se) {
      var t := Uncovered(js, je, ss, se);
      assert 0 <= t < MinutesPerDay && Covers(js, je, t) && !Covers(ss, se, t);
    }
  }

  /** A minute of the job's shift that the seeker's shift misses, when the case analysis says no. */
  lemma Uncovered(js: int, je: int, ss: int, se: int) returns (t: int)
    requires InDay(js) && InDay(je) && InDay(ss) && InDay(se)
    requires ss != se
    requires !SlotFits(js, je, ss, se)
    ensures 0 <= t < MinutesPerDay && Covers(js, je, t) && !Covers(ss, se, t)
  {
    if !Wraps(js, je) && !Wraps(ss, se) {
      t := if js < ss then js else je - 1;
    } else if Wraps(js, je) && !Wraps(ss, se) {
      t := MinutesPerDay - 1;
    } else if !Wraps(js, je) {
      t := if js < se then se else js;
    } else {
      t := if js < ss then (if js < se then se else js) else se;
    }
  }

  /**
   * A seeker shift whose end equals its start wraps, so it covers the whole day, yet a job
   * that straddles its start (08:20-11:40 against 10:00-10:00) is rejected.
   */
  lemma FullDaySeekerShiftRejectsStraddlingJob()
    ensures CoveredWithin(500, 700, 600, 600)
    ensures !SlotFits(500, 700, 600, 600)
  {
  }

  // ---------------------------------------------------------------- score

  /** Python truthiness of an optional pay figure: unset and 0 both count as "not specified". */
  predicate IsSet(pay: Option<nat>) {
    pay.Some? && pay.value != 0
  }

  /** The seeker's `locations` plus the primary `location` when non-empty, stripped and lower-cased. */
  function SeekerCities(p: SeekerProfile): seq<string> {
    seq(|p.locations|, i requires 0 <= i < |p.locations| => Lower(Strip(p.locations[i])))
      + (if p.location != "" then [Lower(Strip(p.location))] else [])
  }

  function SharedSkills(job: Job, p: SeekerProfile): set<string> {
    job.requiredSkills * p.skills
  }

  predicate LocationMatches(job: Job, p: SeekerProfile) {
    Lower(Strip(job.location)) in SeekerCities(p)
  }

  predicate SkillsMatch(job: Job, p: SeekerProfile) {
    job.requiredSkills == {} || SharedSkills(job, p) != {}
  }

  predicate MonthsMatch(job: Job, p: SeekerProfile) {
    job.requirements.months == [] || CheckContainment(job.requirements.months, p.availability.months)
  }

  predicate DaysMatch(job: Job, p: SeekerProfile) {
    job.requirements.days == [] || CheckContainment(job.requirements.days, p.availability.days)
  }

  predicate FitsSomeSlot(j: Slot, seekerSlots: seq<Slot>) {
    exists k :: 0 <= k < |seekerSlots| && IsSlotContained(j, seekerSlots[k])
  }

  /** A job without slots fits anyone; otherwise the seeker has slots and each job slot fits one of them. */
  predicate SlotsMatch(job: Job, p: SeekerProfile) {
    var jobSlots, seekerSlots := job.requirements.timeSlots, p.availability.timeSlots;
    jobSlots == [] ||
    (seekerSlots != [] && forall i :: 0 <= i < |jobSlots| ==> FitsSomeSlot(jobSlots[i], seekerSlots))
  }

  predicate PassesHardChecks(job: Job, p: SeekerProfile) {
    LocationMatches(job, p) && SkillsMatch(job, p) && MonthsMatch(job, p) && DaysMatch(job, p) && SlotsMatch(job, p)
  }

  /** +5 when the pay reaches the seeker's minimum, +2 when it is within the maximum; only for a job with pay. */
  function PayBonus(job: Job, p: SeekerProfile): nat {
    if IsSet(job.payPerDay) then
      (if IsSet(p.minPay) && job.payPerDay.value >= p.minPay.value then 5 else 0) +
      (if IsSet(p.maxPay) && job.payPerDay.value <= p.maxPay.value then 2 else 0)
    else 0
  }

  /** The score `calculate_match_score` computes, as one definition. */
  function MatchScore(job: Job, p: SeekerProfile): (r: nat)
    ensures r == 0 || r >= 10
  {
    if PassesHardChecks(job, p) then 10 + 5 * |SharedSkills(job, p)| + PayBonus(job, p) else 0
  }

  /** The score is zero exactly when a hard check fails. */
  lemma MatchScoreZeroIffHardCheckFails(job: Job, p: SeekerProfile)
    ensures MatchScore(job, p) == 0 <==> !PassesHardChecks(job, p)
    ensures (!LocationMatches(job, p) || !SkillsMatch(job, p) || !MonthsMatch(job, p) ||
             !DaysMatch(job, p) || !SlotsMatch(job, p)) ==> MatchScore(job, p) == 0
  {
  }

  /** A non-zero score is at least 10 and at most 17 plus 5 per required skill. */
  lemma MatchScoreBounds(job: Job, p: SeekerProfile)
    ensures MatchScore(job, p) == 0 || 10 <= MatchScore(job, p) <= 17 + 5 * |job.requiredSkills|
  {
    var shared := SharedSkills(job, p);
    assert job.requiredSkills == shared + (job.requiredSkills - p.skills);
    assert |job.requiredSkills| == |shared| + |job.requiredSkills - p.skills|;
  }

  /** A job that requires slots never matches a seeker who has none. */
  lemma NoSeekerSlotsNoMatch(job: Job, p: SeekerProfile)
    requires job.requirements.timeSlots != [] && p.availability.timeSlots == []
    ensures MatchScore(job, p) == 0
  {
  }

  /** The inner scan of the slot loop: look for a seeker slot containing the job slot, stopping at the first. */
  method FindFit(jobSlot: Slot, seekerSlots: seq<Slot>) returns (foundFit: bool)
    ensures foundFit <==> FitsSomeSlot(jobSlot, seekerSlots)
  {
    foundFit := false;
    var k := 0;
    while k < |seekerSlots|
      invariant 0 <= k <= |seekerSlots|
      invariant !foundFit
      invariant forall b :: 0 <= b < k ==> !IsSlotContained(jobSlot, seekerSlots[b])
    {
      if IsSlotContained(jobSlot, seekerSlots[k]) {
        foundFit := true;
        return;
      }
      k := k + 1;
    }
  }

  /**
   * The slot loop of `calculate_match_score`: for each job slot, scan the seeker's slots with
   * a `found_fit` flag and stop at the first job slot that fits none.
   */
  method EverySlotFits(jobSlots: seq<Slot>, seekerSlots: seq<Slot>) returns (ok: bool)
    ensures ok <==> forall i :: 0 <= i < |jobSlots| ==> FitsSomeSlot(jobSlots[i], seekerSlots)
  {
    var i := 0;
    while i < |jobSlots|
      invariant 0 <= i <= |jobSlots|
      invariant forall a :: 0 <= a < i ==> FitsSomeSlot(jobSlots[a], seekerSlots)
    {
      var foundFit := FindFit(jobSlots[i], seekerSlots);
      if !foundFit {
        return false;
      }
      i := i + 1;
    }
    return true;
  }

  /**
   * `calculate_match_score`: the hard checks in order (location, skills, months, days, each
   * job slot against the seeker's slots), returning 0 at the first failure, then the base
   * score of 10, 5 per shared skill and the pay bonuses.
   */
  method CalculateMatchScore(job: Job, p: SeekerProfile) returns (score: nat)
    ensures score == MatchScore(job, p)
  {
    var jobCity := Lower(Strip(job.location));
    var seekerCities := SeekerCities(p);
    if jobCity !in seekerCities {
      return 0;
    }

    var intersection: set<string>;
    if job.requiredSkills != {} {
      intersection := job.requiredSkills * p.skills;
      if intersection == {} {
        return 0;
      }
    } else {
      intersection := {};
    }

    var req, avail := job.requirements, p.availability;
    if req.months != [] && !CheckContainment(req.months, avail.months) {
      return 0;
    }
    if req.days != [] && !CheckContainment(req.days, avail.days) {
      return 0;
    }

    var jobSlots, seekerSlots := req.timeSlots, avail.timeSlots;
    if jobSlots != [] {
      if seekerSlots == [] {
        return 0;
      }
      var allFit := EverySlotFits(jobSlots, seekerSlots);
      if !allFit {
        return 0;
      }
    }

    assert intersection == SharedSkills(job, p);
    score := 10;
    score := score + |intersection| * 5;
    if IsSet(job.payPerDay) {
      if IsSet(p.minPay) && job.payPerDay.value >= p.minPay.value {
        score := score + 5;
      }
      if IsSet(p.maxPay) && job.payPerDay.value <= p.maxPay.value {
        score := score + 2;
      }
    }
  }
}
