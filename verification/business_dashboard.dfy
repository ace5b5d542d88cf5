/**
 * The business dashboard: the applications and suggested candidates shown under each job,
 * the job form (cleared, filled for an edit, filled for a repost, submitted), and the split
 * between open jobs and the history of closed ones.
 */
module BusinessDashboard {
  import opened Wrappers
  import opened Text
  import opened Lists
  import opened Records
  import AvailabilityEditor
  import Skills

  // ---------------------------------------------------------------- applicants and suggestions

  /** `applications.filter(a => a.job === jobId)`. */
  function ApplicationsForJob(applications: seq<Application>, jobId: nat): (r: seq<Application>)
    ensures forall a :: a in r <==> a in applications && a.job == jobId
    ensures IsSubsequence(r, applications)
  {
    Filter(applications, (a: Application) => a.job == jobId)
  }

  /** The seekers who applied to the job, in application order. */
  function Applicants(applications: seq<Application>, jobId: nat): (r: seq<nat>)
    ensures forall s :: s in r <==> exists a :: a in applications && a.job == jobId && a.seeker == s
  {
    var apps := ApplicationsForJob(applications, jobId);
    var r := seq(|apps|, k requires 0 <= k < |apps| => apps[k].seeker);
    ApplicantsSpec(apps, r);
    r
  }

  lemma ApplicantsSpec(apps: seq<Application>, r: seq<nat>)
    requires |r| == |apps| && forall k :: 0 <= k < |apps| ==> r[k] == apps[k].seeker
    ensures forall s :: s in r <==> exists a :: a in apps && a.seeker == s
  {
    forall s | s in r ensures exists a :: a in apps && a.seeker == s {
      var k :| 0 <= k < |r| && r[k] == s;
      assert apps[k] in apps;
    }
    forall a | a in apps ensures a.seeker in r {
      var k :| 0 <= k < |apps| && apps[k] == a;
      assert r[k] == a.seeker;
    }
  }

  /** The matches computed for the job. */
  function JobMatches(matches: seq<MatchRow>, jobId: nat): seq<MatchRow> {
    Filter(matches, (m: MatchRow) => m.jobId == jobId)
  }

  /** `getSuggestedCandidates`: the job's matches whose seeker has not applied to it, in match order. */
  function SuggestedCandidates(matches: seq<MatchRow>, applications: seq<Application>, jobId: nat): (r: seq<MatchRow>)
    ensures forall m :: m in r <==> (m in matches && m.jobId == jobId &&
      forall a :: a in applications && a.job == jobId ==> a.seeker != m.seekerId)
    ensures IsSubsequence(r, JobMatches(matches, jobId))
  {
    var applicantIds := Applicants(applications, jobId);
    Filter(JobMatches(matches, jobId), (m: MatchRow) => m.seekerId !in applicantIds)
  }

  /** Once a seeker applies to a job, the job suggests nobody with that seeker id. */
  lemma ApplyingRemovesSuggestion(matches: seq<MatchRow>, applications: seq<Application>, app: Application)
    ensures forall m :: m in SuggestedCandidates(matches, applications + [app], app.job) ==> m.seekerId != app.seeker
    ensures forall m :: m in SuggestedCandidates(matches, applications + [app], app.job) ==>
      m in SuggestedCandidates(matches, applications, app.job)
  {
    assert app in applications + [app];
    assert forall a :: a in applications ==> a in applications + [app];
  }

  // ---------------------------------------------------------------- the job form

  /** The pay input: the text typed into it, or the number (or null) a loaded job carried. */
  datatype PayField = Typed(text: string) | Loaded(amount: Option<nat>)

  /** The form's fields; the metadata fields are None when the form has not been filled from a job. */
  datatype JobForm = JobForm(
    id: Option<nat>,
    createdAt: Option<string>,
    business: Option<string>,
    title: string,
    description: string,
    location: string,
    latitude: Option<real>,
    longitude: Option<real>,
    address: string,
    requiredSkills: string,
    payPerDay: PayField,
    requirements: AvailabilityEditor.AvailabilityValue,
    isActive: Option<bool>)

  datatype View = JobsView | CreateView | HistoryView

  /** The form together with the chips selected beside it and the job being edited, if any. */
  datatype Editor = Editor(form: JobForm, selectedCommon: seq<string>, editingJobId: Option<nat>, view: View)

  const NoRequirements := AvailabilityEditor.AvailabilityValue([], [], [])

  /** The empty form `clearForm` installs. */
  const EmptyForm := JobForm(None, None, None, "", "", "", None, None, "", "", Typed(""), NoRequirements, None)

  /** `clearForm`: empty form, no chips, no job being edited; the view is left as it is. */
  function ClearForm(e: Editor): (r: Editor)
    ensures r.form.title == "" && r.form.description == "" && r.form.location == "" && r.form.address == ""
    ensures r.form.latitude.None? && r.form.longitude.None?
    ensures r.form.requiredSkills == "" && r.form.payPerDay == Typed("")
    ensures r.form.requirements.days == [] && r.form.requirements.months == [] && r.form.requirements.timeSlots == []
    ensures r.selectedCommon == [] && r.editingJobId.None? && r.view == e.view
  {
    Editor(EmptyForm, [], None, e.view)
  }

  /**
   * The form shows the job: every content field copied, the job's other (non-common) skills
   * as ", "-joined text, and its requirements, three empty lists when it has none.
   */
  ghost predicate ShowsJob(f: JobForm, job: JobPost, common: seq<string>) {
    f.title == job.title && f.description == job.description && f.location == job.location &&
    f.latitude == job.latitude && f.longitude == job.longitude && f.address == job.address &&
    f.payPerDay == Loaded(job.payPerDay) &&
    f.requiredSkills == Skills.OthersText(Skills.OtherPart(job.requiredSkills, common)) &&
    f.requirements == job.requirements.GetOr(NoRequirements)
  }

  /** The form filled from a job: its fields, the other skills as text, missing requirements as empty lists. */
  function FormFromJob(job: JobPost, common: seq<string>): (f: JobForm)
    ensures ShowsJob(f, job, common)
    ensures f.id == Some(job.id) && f.createdAt == Some(job.createdAt) && f.business == Some(job.business)
    ensures f.isActive == Some(job.isActive)
  {
    JobForm(Some(job.id), Some(job.createdAt), Some(job.business), job.title, job.description, job.location,
      job.latitude, job.longitude, job.address,
      Skills.OthersText(Skills.OtherPart(job.requiredSkills, common)), Loaded(job.payPerDay),
      job.requirements.GetOr(NoRequirements), Some(job.isActive))
  }

  /** `handleEdit`: the form holds the job, the chips its common skills, and the job is the one being edited. */
  function Edit(job: JobPost, common: seq<string>): (r: Editor)
    ensures ShowsJob(r.form, job, common)
    ensures r.form.id == Some(job.id) && r.form.createdAt == Some(job.createdAt) && r.form.business == Some(job.business)
    ensures r.form.isActive == Some(job.isActive)
    ensures r.editingJobId == Some(job.id) && r.view == CreateView
    ensures r.selectedCommon == Skills.CommonPart(job.requiredSkills, common)
  {
    Editor(FormFromJob(job, common), Skills.CommonPart(job.requiredSkills, common), Some(job.id), CreateView)
  }

  /**
   * `handleRepost`: as for an edit, but without the job's id, creation time and owner, marked
   * active, and with no job being edited, so that submitting creates a new posting.
   */
  function Repost(job: JobPost, common: seq<string>): (r: Editor)
    ensures ShowsJob(r.form, job, common)
    ensures r.form.id.None? && r.form.createdAt.None? && r.form.business.None?
    ensures r.form.isActive == Some(true) && r.editingJobId.None? && r.view == CreateView
    ensures r.selectedCommon == Skills.CommonPart(job.requiredSkills, common)
  {
    var f := FormFromJob(job, common);
    Editor(f.(id := None, createdAt := None, business := None, isActive := Some(true)),
      Skills.CommonPart(job.requiredSkills, common), None, CreateView)
  }

  /** A repost fills the form exactly as an edit does, but for the metadata and the editing target. */
  lemma RepostIsEditWithoutMetadata(job: JobPost, common: seq<string>)
    ensures Repost(job, common).form == Edit(job, common).form.(id := None, createdAt := None, business := None, isActive := Some(true))
    ensures Repost(job, common).selectedCommon == Edit(job, common).selectedCommon
    ensures Repost(job, common).editingJobId.None? && Edit(job, common).editingJobId == Some(job.id)
  {
  }

  /** The body of the request a submit sends: the form with the skills as a list. */
  datatype JobPayload = JobPayload(form: JobForm, requiredSkills: seq<string>)

  /** A submit updates the job being edited, or creates a job when none is (an id of 0 counts as none). */
  datatype JobRequest = UpdateJob(jobId: nat, payload: JobPayload) | CreateJob(payload: JobPayload)

  /** `handleCreateJob`: the chips, then the parsed free-text skills. */
  function Submit(e: Editor): (r: JobRequest)
    ensures r.payload.requiredSkills == Skills.SavedSkills(e.selectedCommon, e.form.requiredSkills)
    ensures r.payload.form == e.form
    ensures r.UpdateJob? <==> e.editingJobId.Some? && e.editingJobId.value != 0
    ensures r.UpdateJob? ==> r.jobId == e.editingJobId.value
  {
    var payload := JobPayload(e.form, Skills.SavedSkills(e.selectedCommon, e.form.requiredSkills));
    if e.editingJobId.Some? && e.editingJobId.value != 0 then UpdateJob(e.editingJobId.value, payload)
    else CreateJob(payload)
  }

  /**
   * The editor once the request settles: after a success the jobs list is shown and the form
   * cleared, which also ends the edit; after a failure everything stays as it was.
   */
  function AfterSubmit(e: Editor, succeeded: bool): (r: Editor)
    ensures succeeded ==> r.view == JobsView && r.form == EmptyForm && r.selectedCommon == [] && r.editingJobId.None?
    ensures !succeeded ==> r == e
  {
    if succeeded then ClearForm(e.(view := JobsView)) else e
  }

  /** After a successful submit the next one creates a new job, even when the first updated one. */
  lemma SubmitAfterSuccessCreates(e: Editor)
    ensures Submit(AfterSubmit(e, true)) == CreateJob(JobPayload(EmptyForm, []))
  {
    ClearThenSubmit(e.(view := JobsView));
  }

  /** After a failed submit, submitting again sends the same request. */
  lemma RetryAfterFailureResends(e: Editor)
    ensures Submit(AfterSubmit(e, false)) == Submit(e)
  {
  }

  /**
   * Editing a job and submitting straight away updates that same job with the same skills
   * (common ones first), when its other skills are plain.
   */
  lemma EditThenSubmit(job: JobPost, common: seq<string>)
    requires job.id != 0
    requires forall x :: x in job.requiredSkills && x !in common ==> Skills.PlainSkill(x)
    ensures Submit(Edit(job, common)) == UpdateJob(job.id, Submit(Edit(job, common)).payload)
    ensures multiset(Submit(Edit(job, common)).payload.requiredSkills) == multiset(job.requiredSkills)
  {
    Skills.LoadThenSaveKeepsSkills(job.requiredSkills, common);
  }

  /** Reposting a job and submitting creates a new, active job with the same skills and no id. */
  lemma RepostThenSubmit(job: JobPost, common: seq<string>)
    requires forall x :: x in job.requiredSkills && x !in common ==> Skills.PlainSkill(x)
    ensures Submit(Repost(job, common)).CreateJob?
    ensures Submit(Repost(job, common)).payload.form.id.None?
    ensures Submit(Repost(job, common)).payload.form.isActive == Some(true)
    ensures multiset(Submit(Repost(job, common)).payload.requiredSkills) == multiset(job.requiredSkills)
  {
    Skills.LoadThenSaveKeepsSkills(job.requiredSkills, common);
  }

  /** After clearing, a submit creates a job whose skills are those typed into the cleared field. */
  lemma ClearThenSubmit(e: Editor)
    ensures Submit(ClearForm(e)) == CreateJob(JobPayload(EmptyForm, []))
  {
    assert Split("", ',') == [""];
    assert Skills.TrimAll([""]) == [""];
  }

  // ---------------------------------------------------------------- open jobs and history

  predicate IsActive(j: JobPost) {
    j.isActive
  }

  /** `jobs.filter(job => view === 'history' ? !job.is_active : job.is_active)`. */
  function FilteredJobs(jobs: seq<JobPost>, view: View): (r: seq<JobPost>)
    ensures view == HistoryView ==> forall j :: j in r <==> j in jobs && !j.isActive
    ensures view != HistoryView ==> forall j :: j in r <==> j in jobs && j.isActive
    ensures IsSubsequence(r, jobs)
  {
    if view == HistoryView then FilterNot(jobs, IsActive) else Filter(jobs, IsActive)
  }

  /** The open-jobs list and the history list together hold every job exactly once. */
  lemma OpenAndHistoryPartitionJobs(jobs: seq<JobPost>)
    ensures multiset(FilteredJobs(jobs, JobsView)) + multiset(FilteredJobs(jobs, HistoryView)) == multiset(jobs)
  {
    FilterPartition(jobs, IsActive);
  }
}
