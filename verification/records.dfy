/** The records the dashboards receive from the backend's job, application and match endpoints. */
module Records {
  import opened Wrappers
  import AvailabilityEditor

  /**
   * A job posting as the job endpoints return it: `business` is the owner as the serializer
   * renders it (a string), and the pay per day is a whole number or null.
   */
  datatype JobPost = JobPost(
    id: nat,
    createdAt: string,
    business: string,
    title: string,
    description: string,
    location: string,
    latitude: Option<real>,
    longitude: Option<real>,
    address: string,
    requiredSkills: seq<string>,
    payPerDay: Option<nat>,
    requirements: Option<AvailabilityEditor.AvailabilityValue>,
    isActive: bool)

  /** An application of a seeker (`seeker`) to a job (`job`). */
  datatype Application = Application(id: nat, job: nat, seeker: nat, status: string)

  /** A computed match between a job and a seeker, with its score. */
  datatype MatchRow = MatchRow(id: nat, jobId: nat, seekerId: nat, score: nat)
}
