/**
 * The stored matches of the backend: one score per (job, seeker) pair, refreshed whenever a
 * job post or a seeker profile is saved. A refresh recomputes the score of every pair it
 * visits, stores it when it is positive (and, for a job refresh, the seeker is available),
 * and deletes the stored match otherwise.
 */
module MatchRefresh {
  import opened Lists
  import opened Matching

  /** The `unique_together = ('job', 'seeker')` key of a match row. */
  datatype MatchKey = MatchKey(job: nat, seeker: nat)

  type Scores = map<MatchKey, nat>

  // ---------------------------------------------------------------- one step

  /** `update_or_create(job, seeker, defaults={'score': score})` when `keep`, else the filtered delete. */
  function Store(m: Scores, key: MatchKey, score: nat, keep: bool): (r: Scores)
    ensures keep ==> key in r && r[key] == score
    ensures !keep ==> key !in r
    ensures forall k :: k != key ==> (k in r <==> k in m) && (k in r ==> r[k] == m[k])
  {
    if keep then m[key := score] else m - {key}
  }

  /** The outcome one visit leaves behind for `key`: stored with `score` when `keep`, absent otherwise. */
  ghost predicate Decided(r: Scores, key: MatchKey, score: nat, keep: bool) {
    if keep then key in r && r[key] == score else key !in r
  }

  /** Nothing happened to `k` between `m` and `r`. */
  ghost predicate Untouched(m: Scores, r: Scores, k: MatchKey) {
    (k in r <==> k in m) && (k in r ==> r[k] == m[k])
  }

  // ---------------------------------------------------------------- refreshing a job

  ghost predicate DistinctUsers(seekers: seq<SeekerProfile>) {
    forall i, j :: 0 <= i < j < |seekers| ==> seekers[i].user != seekers[j].user
  }

  /** Whether the job refresh keeps a match for this seeker. */
  predicate KeepForJob(job: Job, p: SeekerProfile) {
    MatchScore(job, p) > 0 && p.isAvailable
  }

  /** The match table after `update_matches_for_job` has visited `seekers` in order. */
  function RefreshJob(m: Scores, job: Job, seekers: seq<SeekerProfile>): (r: Scores)
    ensures forall k: MatchKey :: k.job != job.id ==> Untouched(m, r, k)
    decreases |seekers|
  {
    if seekers == [] then m
    else
      var p := seekers[|seekers| - 1];
      Store(RefreshJob(m, job, seekers[..|seekers| - 1]), MatchKey(job.id, p.user), MatchScore(job, p), KeepForJob(job, p))
  }

  /** Some visited seeker owns `k` for this job. */
  ghost predicate VisitedByJob(jobId: nat, seekers: seq<SeekerProfile>, k: MatchKey) {
    k.job == jobId && exists i :: 0 <= i < |seekers| && seekers[i].user == k.seeker
  }

  /**
   * After a job refresh over seekers with distinct users, each visited pair holds exactly its
   * current positive score (or nothing), and every other pair is as it was.
   */
  lemma {:induction false} RefreshJobSpec(m: Scores, job: Job, seekers: seq<SeekerProfile>)
    requires DistinctUsers(seekers)
    ensures forall i :: 0 <= i < |seekers| ==>
      Decided(RefreshJob(m, job, seekers), MatchKey(job.id, seekers[i].user), MatchScore(job, seekers[i]), KeepForJob(job, seekers[i]))
    ensures forall k :: !VisitedByJob(job.id, seekers, k) ==> Untouched(m, RefreshJob(m, job, seekers), k)
    decreases |seekers|
  {
    if seekers != [] {
      var n := |seekers| - 1;
      var init := seekers[..n];
      RefreshJobSpec(m, job, init);
      var prev := RefreshJob(m, job, init);
      var r := RefreshJob(m, job, seekers);
      forall i | 0 <= i < |seekers|
        ensures Decided(r, MatchKey(job.id, seekers[i].user), MatchScore(job, seekers[i]), KeepForJob(job, seekers[i]))
      {
        if i < n {
          assert init[i] == seekers[i];
          assert seekers[i].user != seekers[n].user;
        }
      }
      forall k | !VisitedByJob(job.id, seekers, k)
        ensures Untouched(m, r, k)
      {
        if k.job == job.id {
          assert seekers[n].user != k.seeker;
          forall i | 0 <= i < |init| ensures init[i].user != k.seeker {
            assert init[i] == seekers[i];
          }
        }
        assert !VisitedByJob(job.id, init, k);
        assert k != MatchKey(job.id, seekers[n].user);
        assert Untouched(m, prev, k);
      }
    }
  }

  /** Running the same job refresh twice leaves the table as one run leaves it. */
  lemma RefreshJobIdempotent(m: Scores, job: Job, seekers: seq<SeekerProfile>)
    requires DistinctUsers(seekers)
    ensures RefreshJob(RefreshJob(m, job, seekers), job, seekers) == RefreshJob(m, job, seekers)
  {
    var r1 := RefreshJob(m, job, seekers);
    var r2 := RefreshJob(r1, job, seekers);
    RefreshJobSpec(m, job, seekers);
    RefreshJobSpec(r1, job, seekers);
    forall k ensures (k in r2 <==> k in r1) && (k in r2 ==> r2[k] == r1[k]) {
      if VisitedByJob(job.id, seekers, k) {
        var i :| 0 <= i < |seekers| && seekers[i].user == k.seeker;
        assert k == MatchKey(job.id, seekers[i].user);
      } else {
        assert Untouched(r1, r2, k);
      }
    }
  }

  // ---------------------------------------------------------------- refreshing a seeker

  ghost predicate DistinctIds(jobs: seq<Job>) {
    forall i, j :: 0 <= i < j < |jobs| ==> jobs[i].id != jobs[j].id
  }

  /** Every stored match of `user` deleted, everything else kept. */
  function DropSeeker(m: Scores, user: nat): (r: Scores)
    ensures forall k :: k in r ==> k.seeker != user
    ensures forall k: MatchKey :: k.seeker != user ==> Untouched(m, r, k)
  {
    map k | k in m && k.seeker != user :: m[k]
  }

  /** The match table after the loop of `update_matches_for_seeker` has visited `jobs` in order. */
  function RefreshSeekerJobs(m: Scores, p: SeekerProfile, jobs: seq<Job>): (r: Scores)
    ensures forall k: MatchKey :: k.seeker != p.user ==> Untouched(m, r, k)
    decreases |jobs|
  {
    if jobs == [] then m
    else
      var job := jobs[|jobs| - 1];
      Store(RefreshSeekerJobs(m, p, jobs[..|jobs| - 1]), MatchKey(job.id, p.user), MatchScore(job, p), MatchScore(job, p) > 0)
  }

  function ActiveJobs(jobs: seq<Job>): seq<Job> {
    Filter(jobs, (j: Job) => j.isActive)
  }

  /** `update_matches_for_seeker`: an unavailable seeker loses every match; otherwise each active job is refreshed. */
  function RefreshSeeker(m: Scores, p: SeekerProfile, jobs: seq<Job>): (r: Scores)
    ensures forall k: MatchKey :: k.seeker != p.user ==> Untouched(m, r, k)
    ensures !p.isAvailable ==> forall k :: k in r ==> k.seeker != p.user
  {
    if !p.isAvailable then DropSeeker(m, p.user) else RefreshSeekerJobs(m, p, ActiveJobs(jobs))
  }

  ghost predicate VisitedBySeeker(user: nat, jobs: seq<Job>, k: MatchKey) {
    k.seeker == user && exists i :: 0 <= i < |jobs| && jobs[i].id == k.job
  }

  /**
   * After the seeker loop over jobs with distinct ids, each visited pair holds exactly its
   * current positive score (or nothing), and every other pair is as it was.
   */
  lemma {:induction false} RefreshSeekerJobsSpec(m: Scores, p: SeekerProfile, jobs: seq<Job>)
    requires DistinctIds(jobs)
    ensures forall i :: 0 <= i < |jobs| ==>
      Decided(RefreshSeekerJobs(m, p, jobs), MatchKey(jobs[i].id, p.user), MatchScore(jobs[i], p), MatchScore(jobs[i], p) > 0)
    ensures forall k :: !VisitedBySeeker(p.user, jobs, k) ==> Untouched(m, RefreshSeekerJobs(m, p, jobs), k)
    decreases |jobs|
  {
    if jobs != [] {
      var n := |jobs| - 1;
      var init := jobs[..n];
      RefreshSeekerJobsSpec(m, p, init);
      var prev := RefreshSeekerJobs(m, p, init);
      var r := RefreshSeekerJobs(m, p, jobs);
      forall i | 0 <= i < |jobs|
        ensures Decided(r, MatchKey(jobs[i].id, p.user), MatchScore(jobs[i], p), MatchScore(jobs[i], p) > 0)
      {
        if i < n {
          assert init[i] == jobs[i];
          assert jobs[i].id != jobs[n].id;
        }
      }
      forall k | !VisitedBySeeker(p.user, jobs, k)
        ensures Untouched(m, r, k)
      {
        if k.seeker == p.user {
          assert jobs[n].id != k.job;
          forall i | 0 <= i < |init| ensures init[i].id != k.job {
            assert init[i] == jobs[i];
          }
        }
        assert !VisitedBySeeker(p.user, init, k);
        assert k != MatchKey(jobs[n].id, p.user);
        assert Untouched(m, prev, k);
      }
    }
  }

  /** Distinct ids stay distinct in any subsequence. */
  lemma {:induction false} SubsequenceKeepsDistinctIds(a: seq<Job>, b: seq<Job>)
    requires IsSubsequence(a, b) && DistinctIds(b)
    ensures DistinctIds(a)
    decreases |b|
  {
    if a != [] {
      if a[0] == b[0] && IsSubsequence(a[1..], b[1..]) {
        SubsequenceKeepsDistinctIds(a[1..], b[1..]);
        SubsequenceMembers(a[1..], b[1..]);
        forall j | 0 < j < |a| ensures a[0].id != a[j].id {
          assert a[j] == a[1..][j - 1];
          assert a[j] in a[1..];
          var q :| 0 <= q < |b[1..]| && b[1..][q] == a[j];
          assert b[q + 1] == a[j];
        }
        forall i, j | 0 <= i < j < |a| ensures a[i].id != a[j].id {
          if i > 0 {
            assert a[i] == a[1..][i - 1] && a[j] == a[1..][j - 1];
          }
        }
      } else {
        SubsequenceKeepsDistinctIds(a, b[1..]);
      }
    }
  }

  lemma {:induction false} SubsequenceMembers<T>(a: seq<T>, b: seq<T>)
    requires IsSubsequence(a, b)
    ensures forall x :: x in a ==> x in b
    decreases |b|
  {
    if a != [] {
      if a[0] == b[0] && IsSubsequence(a[1..], b[1..]) {
        SubsequenceMembers(a[1..], b[1..]);
        assert forall x :: x in a ==> x == a[0] || x in a[1..];
      } else {
        SubsequenceMembers(a, b[1..]);
      }
    }
  }

  /**
   * The seeker refresh, stated pair by pair: an unavailable seeker ends with no match at all;
   * an available one holds exactly the positive current score against every active job, and
   * its stored matches against any other job (inactive or not listed) are kept as they were;
   * matches of other seekers never change.
   */
  lemma RefreshSeekerSpec(m: Scores, p: SeekerProfile, jobs: seq<Job>)
    requires DistinctIds(jobs)
    ensures !p.isAvailable ==> forall k :: k in RefreshSeeker(m, p, jobs) ==> k.seeker != p.user
    ensures p.isAvailable ==> forall i :: 0 <= i < |jobs| && jobs[i].isActive ==>
      Decided(RefreshSeeker(m, p, jobs), MatchKey(jobs[i].id, p.user), MatchScore(jobs[i], p), MatchScore(jobs[i], p) > 0)
    ensures p.isAvailable ==> forall k: MatchKey ::
      k.seeker == p.user && (forall i :: 0 <= i < |jobs| && jobs[i].isActive ==> k.job != jobs[i].id) ==>
      Untouched(m, RefreshSeeker(m, p, jobs), k)
    ensures forall k: MatchKey :: k.seeker != p.user ==> Untouched(m, RefreshSeeker(m, p, jobs), k)
  {
    if p.isAvailable {
      var active := ActiveJobs(jobs);
      SubsequenceKeepsDistinctIds(active, jobs);
      RefreshSeekerJobsSpec(m, p, active);
      forall k: MatchKey | k.seeker == p.user && (forall i :: 0 <= i < |jobs| && jobs[i].isActive ==> k.job != jobs[i].id)
        ensures Untouched(m, RefreshSeeker(m, p, jobs), k)
      {
        forall q | 0 <= q < |active| ensures active[q].id != k.job {
          assert active[q] in active;
          var i :| 0 <= i < |jobs| && jobs[i] == active[q];
        }
        assert !VisitedBySeeker(p.user, active, k);
      }
      forall i | 0 <= i < |jobs| && jobs[i].isActive
        ensures Decided(RefreshSeeker(m, p, jobs), MatchKey(jobs[i].id, p.user), MatchScore(jobs[i], p), MatchScore(jobs[i], p) > 0)
      {
        assert jobs[i] in active;
        var q :| 0 <= q < |active| && active[q] == jobs[i];
      }
    }
  }

  // ---------------------------------------------------------------- the table

  /** The `Match` rows, reduced to their scores. */
  class MatchTable {
    var scores: Scores

    constructor()
      ensures scores == map[]
    {
      scores := map[];
    }

    /** `update_matches_for_job(job)` over the profiles of every seeker. */
    method UpdateMatchesForJob(job: Job, seekers: seq<SeekerProfile>)
      modifies this
      ensures scores == RefreshJob(old(scores), job, seekers)
    {
      var i := 0;
      while i < |seekers|
        invariant 0 <= i <= |seekers|
        invariant scores == RefreshJob(old(scores), job, seekers[..i])
      {
        var p := seekers[i];
        var score := CalculateMatchScore(job, p);
        var key := MatchKey(job.id, p.user);
        if score > 0 && p.isAvailable {
          scores := scores[key := score];
        } else {
          scores := scores - {key};
        }
        i := i + 1;
        assert seekers[..i][..i - 1] == seekers[..i - 1];
      }
      assert seekers[..|seekers|] == seekers;
    }

    /** `update_matches_for_seeker(profile)`, given every job post. */
    method UpdateMatchesForSeeker(p: SeekerProfile, jobs: seq<Job>)
      modifies this
      ensures scores == RefreshSeeker(old(scores), p, jobs)
    {
      if !p.isAvailable {
        scores := map k | k in scores && k.seeker != p.user :: scores[k];
        return;
      }
      var active := ActiveJobs(jobs);
      var i := 0;
      while i < |active|
        invariant 0 <= i <= |active|
        invariant scores == RefreshSeekerJobs(old(scores), p, active[..i])
      {
        var job := active[i];
        var score := CalculateMatchScore(job, p);
        var key := MatchKey(job.id, p.user);
        if score > 0 {
          scores := scores[key := score];
        } else {
          scores := scores - {key};
        }
        i := i + 1;
        assert active[..i][..i - 1] == active[..i - 1];
      }
      assert active[..|active|] == active;
    }
  }
}
