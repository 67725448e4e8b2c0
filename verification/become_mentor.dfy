/** The become-a-mentor page: the profile form, how a stored profile fills
    it, and the upsert that saves it. */
module BecomeMentor {
  import opened Base
  import opened Text
  import opened Tables

  /** The page's form state. The graduation year holds what `parseInt` made
      of the input, `None` standing for NaN (sent as null). */
  datatype MentorForm = MentorForm(
    fullName: string,
    bio: string,
    currentCompany: string,
    currentPosition: string,
    location: string,
    major: string,
    graduationYear: Option<int>,
    isMentor: bool,
    isAvailable: bool)

  /** The form before any profile is loaded: empty text, the current year,
      not a mentor, available. */
  function InitialMentorForm(currentYear: int): MentorForm {
    MentorForm("", "", "", "", "", "", Some(currentYear), false, true)
  }

  /** A nullable text column as the form shows it. */
  function TextOrEmpty(v: Option<string>): (r: string)
    ensures v.Some? ==> r == v.value
    ensures v.None? ==> r == ""
  {
    v.GetOr("")
  }

  /** `fetchProfile`: with no row the form keeps what it had; with one, null
      text becomes '', a null or zero year becomes the current year, a null
      mentor flag means no and a null availability flag means yes. */
  function FormFromProfile(row: Option<Profile>, prior: MentorForm, currentYear: int): (r: MentorForm)
    ensures row.None? ==> r == prior
    ensures row.Some? ==> r.fullName == TextOrEmpty(row.value.fullName) && r.bio == TextOrEmpty(row.value.bio)
                          && r.major == TextOrEmpty(row.value.major) && r.location == TextOrEmpty(row.value.location)
                          && r.currentCompany == TextOrEmpty(row.value.currentCompany)
                          && r.currentPosition == TextOrEmpty(row.value.currentPosition)
    ensures row.Some? ==> (r.isMentor <==> row.value.isMentor == Some(true))
    ensures row.Some? ==> (r.isAvailable <==> row.value.isAvailableForMentorship != Some(false))
    ensures row.Some? && row.value.graduationYear.Some? && row.value.graduationYear.value != 0 ==>
              r.graduationYear == row.value.graduationYear
    ensures row.Some? && (row.value.graduationYear.None? || row.value.graduationYear == Some(0)) ==>
              r.graduationYear == Some(currentYear)
  {
    match row
    case None => prior
    case Some(p) =>
      MentorForm(
        TextOrEmpty(p.fullName), TextOrEmpty(p.bio), TextOrEmpty(p.currentCompany),
        TextOrEmpty(p.currentPosition), TextOrEmpty(p.location), TextOrEmpty(p.major),
        if p.graduationYear.None? || p.graduationYear == Some(0) then Some(currentYear) else p.graduationYear,
        p.isMentor == Some(true),
        p.isAvailableForMentorship != Some(false))
  }

  /** A profile row whose optional columns are all null. */
  predicate IsBlank(p: Profile) {
    p.fullName.None? && p.bio.None? && p.currentCompany.None? && p.currentPosition.None?
    && p.location.None? && p.major.None? && p.graduationYear.None?
    && p.isMentor.None? && p.isAvailableForMentorship.None?
  }

  /** Loading a blank row gives exactly the initial form. */
  lemma BlankRowGivesInitialForm(p: Profile, prior: MentorForm, currentYear: int)
    requires IsBlank(p)
    ensures FormFromProfile(Some(p), prior, currentYear) == InitialMentorForm(currentYear)
  {
  }

  /** The user's edits: one per input, `typed` being the year input's raw
      text. */
  datatype MentorFormEdit =
    | SetFullName(fullName: string)
    | SetBio(bio: string)
    | SetCompany(company: string)
    | SetPosition(position: string)
    | SetLocation(location: string)
    | SetMajor(major: string)
    | SetGraduationYear(typed: string)
    | SetMentor(on: bool)
    | SetAvailable(on: bool)

  /** The availability switch is rendered only while the mentor switch is
      on. */
  predicate AvailabilityShown(f: MentorForm) {
    f.isMentor
  }

  function EditMentorForm(f: MentorForm, e: MentorFormEdit): (g: MentorForm)
    ensures e.SetAvailable? && !AvailabilityShown(f) ==> g == f
    ensures !e.SetAvailable? ==> g.isAvailable == f.isAvailable
    ensures !e.SetMentor? ==> g.isMentor == f.isMentor
  {
    match e
    case SetFullName(v) => f.(fullName := v)
    case SetBio(v) => f.(bio := v)
    case SetCompany(v) => f.(currentCompany := v)
    case SetPosition(v) => f.(currentPosition := v)
    case SetLocation(v) => f.(location := v)
    case SetMajor(v) => f.(major := v)
    case SetGraduationYear(typed) => f.(graduationYear := ParseInt(typed))
    case SetMentor(on) => f.(isMentor := on)
    case SetAvailable(on) => if AvailabilityShown(f) then f.(isAvailable := on) else f
  }

  /** Switching mentoring off and on again brings back the availability the
      user last chose, although it was hidden in between. */
  lemma MentorSwitchKeepsAvailability(f: MentorForm)
    ensures EditMentorForm(EditMentorForm(f, SetMentor(false)), SetMentor(true)) == f.(isMentor := true)
    ensures EditMentorForm(EditMentorForm(f, SetMentor(false)), SetAvailable(!f.isAvailable)) == f.(isMentor := false)
  {
  }

  /** The row an upsert sends: the viewer's id and the whole form. */
  datatype ProfileUpsert = ProfileUpsert(
    userId: UserId,
    fullName: string,
    bio: string,
    currentCompany: string,
    currentPosition: string,
    location: string,
    major: string,
    graduationYear: Option<int>,
    isMentor: bool,
    isAvailable: bool)

  /** `handleSubmit`: with no user nothing is sent; otherwise the whole form,
      the availability flag included even when its switch is hidden. */
  function SaveProfile(viewer: Viewer, f: MentorForm): (r: Result<ProfileUpsert>)
    ensures r.Err? <==> viewer.None?
    ensures r.Err? ==> r.failure == AuthRequired
    ensures r.Ok? ==> r.value.userId == viewer.value && r.value.isMentor == f.isMentor
                      && r.value.isAvailable == f.isAvailable && r.value.graduationYear == f.graduationYear
    ensures r.Ok? ==> r.value.fullName == f.fullName && r.value.bio == f.bio
                      && r.value.currentCompany == f.currentCompany && r.value.currentPosition == f.currentPosition
                      && r.value.location == f.location && r.value.major == f.major
  {
    if viewer.None? then Err(AuthRequired)
    else Ok(ProfileUpsert(viewer.value, f.fullName, f.bio, f.currentCompany, f.currentPosition,
                          f.location, f.major, f.graduationYear, f.isMentor, f.isAvailable))
  }

  /** The viewer's row after the store applies the upsert: the sent columns
      are overwritten, the rest are kept. The page sends no `updated_at`, so
      the stamp is kept too; the row is taken to be the viewer's existing
      one, though the payload names neither `id` nor a conflict column. */
  function ApplyUpsert(p: Profile, u: ProfileUpsert): (q: Profile)
    ensures q.id == p.id && q.email == p.email && q.avatarUrl == p.avatarUrl && q.degree == p.degree
    ensures q.githubUrl == p.githubUrl && q.linkedinUrl == p.linkedinUrl && q.twitterUrl == p.twitterUrl
    ensures q.createdAt == p.createdAt && q.updatedAt == p.updatedAt
    ensures q.userId == u.userId && q.isMentor == Some(u.isMentor) && q.isAvailableForMentorship == Some(u.isAvailable)
    ensures q.fullName == Some(u.fullName) && q.bio == Some(u.bio) && q.major == Some(u.major)
    ensures q.currentCompany == Some(u.currentCompany) && q.currentPosition == Some(u.currentPosition)
    ensures q.location == Some(u.location) && q.graduationYear == u.graduationYear
  {
    p.(userId := u.userId, fullName := Some(u.fullName), bio := Some(u.bio),
       currentCompany := Some(u.currentCompany), currentPosition := Some(u.currentPosition),
       location := Some(u.location), major := Some(u.major), graduationYear := u.graduationYear,
       isMentor := Some(u.isMentor), isAvailableForMentorship := Some(u.isAvailable))
  }

  /** Saving and then reloading (the page refetches after a save) gives the
      form back, except that an unreadable or zero year comes back as the
      current year. */
  lemma SaveThenReload(p: Profile, viewer: Viewer, f: MentorForm, prior: MentorForm, currentYear: int)
    requires viewer.Some?
    ensures SaveProfile(viewer, f).Ok?
    ensures FormFromProfile(Some(ApplyUpsert(p, SaveProfile(viewer, f).value)), prior, currentYear)
            == (if f.graduationYear.None? || f.graduationYear == Some(0) then f.(graduationYear := Some(currentYear)) else f)
  {
  }

  /** A mentor who marks themselves unavailable and is then saved is stored
      unlisted-for-mentoring even after switching mentoring off: the hidden
      flag travels with the upsert. */
  lemma HiddenAvailabilityIsSaved(p: Profile, viewer: Viewer, f: MentorForm)
    requires viewer.Some? && f.isMentor
    ensures var g := EditMentorForm(EditMentorForm(f, SetAvailable(false)), SetMentor(false));
            SaveProfile(viewer, g).Ok?
            && ApplyUpsert(p, SaveProfile(viewer, g).value).isAvailableForMentorship == Some(false)
            && ApplyUpsert(p, SaveProfile(viewer, g).value).isMentor == Some(false)
  {
  }
}
