/**
 * The seeker's dashboard: how old a posting looks, the status of the seeker's own
 * application to a job, the paged list of all jobs, and the skill editor's loading step.
 */
module SeekerDashboard {
  import opened Wrappers
  import opened Text
  import opened Lists
  import opened Records
  import Skills

  // ---------------------------------------------------------------- job age

  /** The buckets of `calculateJobAge`; `OnDate` is the fall-through to the posting's date. */
  datatype JobAge = JustNow | MinutesAgo(minutes: nat) | HoursAgo(hours: nat) | DaysAgo(days: nat) | OnDate

  const SecondsPerHour: int := 3600
  const SecondsPerDay: int := 86400

  /**
   * The bucket for a difference of `diffMs` milliseconds between now and the posting time.
   * Every division is `Math.floor` of a quotient by a positive constant, which is Dafny's `/`.
   */
  function JobAgeOf(diffMs: int): (r: JobAge)
    ensures var s := diffMs / 1000;
      (r == JustNow <==> s < 60) &&
      (r.MinutesAgo? <==> 60 <= s < SecondsPerHour) &&
      (r.HoursAgo? <==> SecondsPerHour <= s < SecondsPerDay) &&
      (r.DaysAgo? <==> SecondsPerDay <= s < 30 * SecondsPerDay) &&
      (r == OnDate <==> s >= 30 * SecondsPerDay)
    ensures var s := diffMs / 1000;
      (r.MinutesAgo? ==> 1 <= r.minutes <= 59 && 60 * r.minutes <= s < 60 * (r.minutes + 1)) &&
      (r.HoursAgo? ==> 1 <= r.hours <= 23 && SecondsPerHour * r.hours <= s < SecondsPerHour * (r.hours + 1)) &&
      (r.DaysAgo? ==> 1 <= r.days <= 29 && SecondsPerDay * r.days <= s < SecondsPerDay * (r.days + 1))
  {
    var seconds := diffMs / 1000;
    if seconds < 60 then JustNow
    else
      var minutes := seconds / 60;
      if minutes < 60 then MinutesAgo(minutes)
      else
        var hours := minutes / 60;
        if hours < 24 then HoursAgo(hours)
        else
          var days := hours / 24;
          if days < 30 then DaysAgo(days) else OnDate
  }

  /** The text shown; `localeDate` stands for the posting's date as the browser's locale writes it. */
  function JobAgeText(a: JobAge, localeDate: string): string {
    match a
    case JustNow => "Just now"
    case MinutesAgo(n) => NatToString(n) + "m ago"
    case HoursAgo(n) => NatToString(n) + "h ago"
    case DaysAgo(n) => NatToString(n) + "d ago"
    case OnDate => localeDate
  }

  /** Buckets ordered from youngest to oldest, and by their number inside a bucket. */
  predicate NotOlder(a: JobAge, b: JobAge) {
    match a
    case JustNow => true
    case MinutesAgo(n) => b != JustNow && (b.MinutesAgo? ==> n <= b.minutes)
    case HoursAgo(n) => (b.HoursAgo? && n <= b.hours) || b.DaysAgo? || b == OnDate
    case DaysAgo(n) => (b.DaysAgo? && n <= b.days) || b == OnDate
    case OnDate => b == OnDate
  }

  /** An older posting never shows a younger age. */
  lemma JobAgeMonotone(d1: int, d2: int)
    requires d1 <= d2
    ensures NotOlder(JobAgeOf(d1), JobAgeOf(d2))
  {
    var a, b := JobAgeOf(d1), JobAgeOf(d2);
    var s1, s2 := d1 / 1000, d2 / 1000;
    assert s1 <= s2;
    if a.MinutesAgo? && b.MinutesAgo? {
      assert 60 * a.minutes <= s2 < 60 * (b.minutes + 1);
    } else if a.HoursAgo? && b.HoursAgo? {
      assert SecondsPerHour * a.hours <= s2 < SecondsPerHour * (b.hours + 1);
    } else if a.DaysAgo? && b.DaysAgo? {
      assert SecondsPerDay * a.days <= s2 < SecondsPerDay * (b.days + 1);
    }
  }

  /** A posting in the future or under a minute old shows "Just now". */
  lemma FreshPostingsAreJustNow(diffMs: int)
    requires diffMs < 60000
    ensures JobAgeText(JobAgeOf(diffMs), "") == "Just now"
  {
    assert diffMs / 1000 < 60;
  }

  // ---------------------------------------------------------------- application status

  /** `applications.find(a => a.job === jobId)?.status ?? null`: the status of the first application to the job. */
  function ApplicationStatus(applications: seq<Application>, jobId: nat): (r: Option<string>)
    ensures r.None? <==> forall a :: a in applications ==> a.job != jobId
    ensures r.Some? ==> exists i :: (0 <= i < |applications| && applications[i].job == jobId &&
      applications[i].status == r.value && forall k :: 0 <= k < i ==> applications[k].job != jobId)
    decreases |applications|
  {
    if applications == [] then None
    else if applications[0].job == jobId then Some(applications[0].status)
    else
      var r := ApplicationStatus(applications[1..], jobId);
      assert forall a :: a in applications ==> a == applications[0] || a in applications[1..];
      if r.Some? then
        var i :| 0 <= i < |applications[1..]| && applications[1..][i].job == jobId &&
          applications[1..][i].status == r.value && forall k :: 0 <= k < i ==> applications[1..][k].job != jobId;
        assert applications[i + 1] == applications[1..][i];
        r
      else r
  }

  /** Applying again adds nothing visible: the first application keeps deciding the status. */
  lemma LaterApplicationsDoNotChangeStatus(applications: seq<Application>, more: seq<Application>, jobId: nat)
    requires ApplicationStatus(applications, jobId).Some?
    ensures ApplicationStatus(applications + more, jobId) == ApplicationStatus(applications, jobId)
  {
    var r := ApplicationStatus(applications, jobId);
    var r' := ApplicationStatus(applications + more, jobId);
    var i :| 0 <= i < |applications| && applications[i].job == jobId &&
      applications[i].status == r.value && forall k :: 0 <= k < i ==> applications[k].job != jobId;
    assert (applications + more)[i] == applications[i];
    assert applications[i] in applications + more;
    var j :| 0 <= j < |applications + more| && (applications + more)[j].job == jobId &&
      (applications + more)[j].status == r'.value && forall k :: 0 <= k < j ==> (applications + more)[k].job != jobId;
  }

  // ---------------------------------------------------------------- all jobs, page by page

  /** One page of the paginated job list; `next` is the link to the following page. */
  datatype JobPage = JobPage(results: seq<JobPost>, next: Option<string>)

  /** The list after a page arrives: the page alone after a reset, appended otherwise. */
  function AfterPage(jobs: seq<JobPost>, reset: bool, results: seq<JobPost>): (r: seq<JobPost>)
    ensures reset ==> r == results
    ensures !reset ==> |r| == |jobs| + |results| && r[..|jobs|] == jobs && r[|jobs|..] == results
  {
    if reset then results else jobs + results
  }

  /** Pages appended one after another. */
  function AppendPages(jobs: seq<JobPost>, pages: seq<seq<JobPost>>): seq<JobPost>
    decreases |pages|
  {
    if pages == [] then jobs else AppendPages(AfterPage(jobs, false, pages[0]), pages[1..])
  }

  function Flatten(pages: seq<seq<JobPost>>): seq<JobPost>
    decreases |pages|
  {
    if pages == [] then [] else pages[0] + Flatten(pages[1..])
  }

  /** Scrolling through the pages after a reset lists exactly the pages' jobs, in page order. */
  lemma {:induction false} AppendPagesConcatenates(jobs: seq<JobPost>, pages: seq<seq<JobPost>>)
    ensures AppendPages(jobs, pages) == jobs + Flatten(pages)
    decreases |pages|
  {
    if pages != [] {
      AppendPagesConcatenates(jobs + pages[0], pages[1..]);
      assert jobs + pages[0] + Flatten(pages[1..]) == jobs + (pages[0] + Flatten(pages[1..]));
    }
  }

  lemma ResetThenScroll(jobs: seq<JobPost>, first: seq<JobPost>, more: seq<seq<JobPost>>)
    ensures AppendPages(AfterPage(jobs, true, first), more) == first + Flatten(more)
  {
    AppendPagesConcatenates(first, more);
  }

  /** The "all jobs" tab. */
  class JobBrowser {
    var allJobs: seq<JobPost>
    var page: nat
    var hasMore: bool
    var isLoading: bool

    constructor()
      ensures allJobs == [] && page == 1 && !hasMore && !isLoading
    {
      allJobs, page, hasMore, isLoading := [], 1, false, false;
    }

    /**
     * `fetchAllJobs(page, reset)`: `response` is the page the server answered, None when the
     * request failed, in which case only the loading flag changes.
     */
    method FetchAllJobs(requested: nat, reset: bool, response: Option<JobPage>)
      modifies this
      ensures !isLoading
      ensures response.Some? ==>
        allJobs == AfterPage(old(allJobs), reset, response.value.results) &&
        hasMore == (response.value.next.Some? && response.value.next.value != "") &&
        page == requested
      ensures response.None? ==> allJobs == old(allJobs) && hasMore == old(hasMore) && page == old(page)
    {
      isLoading := true;
      if response.Some? {
        var data := response.value;
        if reset {
          allJobs := data.results;
        } else {
          allJobs := allJobs + data.results;
        }
        hasMore := data.next.Some? && data.next.value != "";
        page := requested;
      }
      isLoading := false;
    }
  }

  // ---------------------------------------------------------------- skill editor

  /**
   * The effect that fills the skill editor when the profile or the common skills arrive: a
   * non-empty list is split into selected chips and the text of the others; an empty list
   * clears the editor; nothing happens until the common skills are known.
   */
  function SyncSkillEditor(skills: seq<string>, common: seq<string>, selected: seq<string>, input: string): (r: (seq<string>, string))
    ensures common == [] ==> r == (selected, input)
    ensures common != [] && skills == [] ==> r == ([], "")
    ensures common != [] && skills != [] ==>
      multiset(r.0) + multiset(Skills.OtherPart(skills, common)) == multiset(skills) &&
      (forall x :: x in r.0 <==> x in skills && x in common) &&
      r.1 == Skills.OthersText(Skills.OtherPart(skills, common))
  {
    if |skills| > 0 && |common| > 0 then
      Skills.PartitionKeepsSkills(skills, common);
      (Skills.CommonPart(skills, common), Skills.OthersText(Skills.OtherPart(skills, common)))
    else if |skills| == 0 && |common| > 0 then ([], "")
    else (selected, input)
  }
}
