/** The job board page: the search and type filter over active postings,
    and the post form. */
module CareerOpportunities {
  import opened Base
  import opened Text
  import opened Tables
  import opened Seqs

  /** The type filter's "show everything" value. */
  const AllTypes := "all"

  function IsActive(): JobOpportunity -> bool { (j: JobOpportunity) => j.isActive == Some(true) }

  predicate MatchesSearch(j: JobOpportunity, term: string) {
    MatchesIgnoringCase(j.title, term) || MatchesIgnoringCase(j.company, term) || MatchesIgnoringCase(j.description, term)
  }

  predicate MatchesType(j: JobOpportunity, filterType: string) {
    filterType == AllTypes || j.jobType == filterType
  }

  function Kept(term: string, filterType: string): JobOpportunity -> bool {
    (j: JobOpportunity) => MatchesSearch(j, term) && MatchesType(j, filterType)
  }

  function NewerOrSame(): (JobOpportunity, JobOpportunity) -> bool {
    (a: JobOpportunity, b: JobOpportunity) => a.createdAt >= b.createdAt
  }

  /** `fetchJobs`: active postings only (the store orders them newest
      first). */
  function ActiveJobs(table: seq<JobOpportunity>): (r: seq<JobOpportunity>)
    ensures forall j :: j in r <==> j in table && j.isActive == Some(true)
    ensures IsSubseq(r, table)
  {
    Filter(table, IsActive())
  }

  /** `filteredJobs`: a posting stays when the term occurs, ignoring case, in
      its title, company or description, and the filter is "all" or its
      type. */
  function FilteredJobs(jobs: seq<JobOpportunity>, term: string, filterType: string): (r: seq<JobOpportunity>)
    ensures forall j :: j in r <==>
      (j in jobs
       && (Contains(Lower(j.title), Lower(term)) || Contains(Lower(j.company), Lower(term)) || Contains(Lower(j.description), Lower(term)))
       && (filterType == AllTypes || j.jobType == filterType))
    ensures IsSubseq(r, jobs)
  {
    Filter(jobs, Kept(term, filterType))
  }

  /** The empty term with "all" shows every posting, in order. */
  lemma EverythingByDefault(jobs: seq<JobOpportunity>)
    ensures FilteredJobs(jobs, "", AllTypes) == jobs
  {
    forall j | j in jobs ensures Kept("", AllTypes)(j) {
      MatchIgnoresTermCase(j.title, "");
    }
    FilterAll(jobs, Kept("", AllTypes));
  }

  /** Typing the term in upper or lower case shows the same postings. */
  lemma TermCaseIrrelevant(jobs: seq<JobOpportunity>, term: string, filterType: string)
    ensures FilteredJobs(jobs, Upper(term), filterType) == FilteredJobs(jobs, term, filterType)
    ensures FilteredJobs(jobs, Lower(term), filterType) == FilteredJobs(jobs, term, filterType)
  {
    forall j | j in jobs
      ensures Kept(Upper(term), filterType)(j) == Kept(term, filterType)(j)
      ensures Kept(Lower(term), filterType)(j) == Kept(term, filterType)(j)
    {
      MatchIgnoresTermCase(j.title, term);
      MatchIgnoresTermCase(j.company, term);
      MatchIgnoresTermCase(j.description, term);
    }
    FilterCongruent(jobs, Kept(Upper(term), filterType), Kept(term, filterType));
    FilterCongruent(jobs, Kept(Lower(term), filterType), Kept(term, filterType));
  }

  /** Choosing a specific type never adds postings: what it shows is an
      order-preserving part of what "all" shows for the same term. */
  lemma SpecificTypeNarrows(jobs: seq<JobOpportunity>, term: string, filterType: string)
    ensures IsSubseq(FilteredJobs(jobs, term, filterType), FilteredJobs(jobs, term, AllTypes))
    ensures |FilteredJobs(jobs, term, filterType)| <= |FilteredJobs(jobs, term, AllTypes)|
  {
    FilterNarrows(jobs, Kept(term, filterType), Kept(term, AllTypes));
    SubseqLength(FilteredJobs(jobs, term, filterType), FilteredJobs(jobs, term, AllTypes));
  }

  /** The list keeps the fetch order, newest posting first. */
  lemma FilteredJobsNewestFirst(table: seq<JobOpportunity>, term: string, filterType: string)
    requires Ordered(ActiveJobs(table), NewerOrSame())
    ensures Ordered(FilteredJobs(ActiveJobs(table), term, filterType), NewerOrSame())
  {
    SubseqOrdered(FilteredJobs(ActiveJobs(table), term, filterType), ActiveJobs(table), NewerOrSame());
  }

  /** The post dialog's state; the expiry is the date input's text, empty
      when not set. */
  datatype JobForm = JobForm(
    title: string,
    description: string,
    company: string,
    location: string,
    jobType: string,
    salaryRange: string,
    requirements: string,
    applicationUrl: string,
    expiresAt: string)

  const InitialJobForm := JobForm("", "", "", "", "full-time", "", "", "", "")

  /** `postJob`: with no user nothing is inserted. Otherwise the form is
      sent with the viewer as poster; an empty expiry is sent as null, any
      other is read as a date by `dateOf` (standing for `new Date`), and an
      unreadable one makes `toISOString` throw, so nothing is inserted. The
      other text fields go as typed, empty strings included. */
  function PostJob(viewer: Viewer, f: JobForm, dateOf: string -> Option<Time>): (r: Result<JobInsert>)
    ensures viewer.None? ==> r == Err(AuthRequired)
    ensures r.Ok? <==> viewer.Some? && (f.expiresAt == "" || dateOf(f.expiresAt).Some?)
    ensures r.Err? && viewer.Some? ==> r.failure == InvalidDate
    ensures r.Ok? ==> r.value.postedBy == viewer.value
                      && r.value.title == f.title && r.value.company == f.company && r.value.jobType == f.jobType
                      && r.value.location == Some(f.location) && r.value.salaryRange == Some(f.salaryRange)
                      && r.value.description == f.description && r.value.requirements == Some(f.requirements)
                      && r.value.applicationUrl == Some(f.applicationUrl)
    ensures r.Ok? && f.expiresAt == "" ==> r.value.expiresAt.None?
    ensures r.Ok? && f.expiresAt != "" ==> r.value.expiresAt == dateOf(f.expiresAt)
  {
    if viewer.None? then Err(AuthRequired)
    else if f.expiresAt != "" && dateOf(f.expiresAt).None? then Err(InvalidDate)
    else
      var expires := if f.expiresAt == "" then None else dateOf(f.expiresAt);
      Ok(JobInsert(viewer.value, f.title, f.description, f.company, Some(f.location), f.jobType,
                   Some(f.salaryRange), Some(f.requirements), Some(f.applicationUrl), expires))
  }

  /** Only the viewer and the expiry decide whether a post goes through:
      editing any other field never turns an insert into an error or back,
      and an unreadable non-empty expiry always stops it. */
  lemma PostJobOutcome(viewer: Viewer, f: JobForm, g: JobForm, dateOf: string -> Option<Time>)
    requires g.expiresAt == f.expiresAt
    ensures PostJob(viewer, f, dateOf).Ok? <==> PostJob(viewer, g, dateOf).Ok?
    ensures viewer.Some? && f.expiresAt != "" && dateOf(f.expiresAt).None? ==> PostJob(viewer, f, dateOf) == Err(InvalidDate)
    ensures PostJob(viewer, f, dateOf).Ok? ==> PostJob(viewer, g, dateOf).value.expiresAt == PostJob(viewer, f, dateOf).value.expiresAt
  {
  }

  /** Posting with the dialog untouched but for the required fields sends no
      expiry and the default type. */
  lemma DefaultPostHasNoExpiry(viewer: UserId, title: string, description: string, company: string,
                               dateOf: string -> Option<Time>)
    ensures var f := InitialJobForm.(title := title, description := description, company := company);
            PostJob(Some(viewer), f, dateOf) == Ok(JobInsert(viewer, title, description, company, Some(""), "full-time",
                                                           Some(""), Some(""), Some(""), None))
  {
  }
}
