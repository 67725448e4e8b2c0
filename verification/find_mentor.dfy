/** The mentor directory page: which profiles are listed, the null-safe
    search over them, and the mentorship request. */
module FindMentor {
  import opened Base
  import opened Text
  import opened Tables
  import opened Seqs

  /** The fixed message every request carries. */
  const RequestMessage := "I would like to request mentorship from you."

  function IsListed(): Profile -> bool {
    (p: Profile) => p.isMentor == Some(true) && p.isAvailableForMentorship == Some(true)
  }

  /** One searched column matches: `field?.toLowerCase().includes(term)`,
      where a null column yields `undefined`, which is not a match. */
  predicate FieldMatches(field: Option<string>, term: string) {
    field.Some? && MatchesIgnoringCase(field.value, term)
  }

  function MatchesTerm(term: string): Profile -> bool {
    (p: Profile) => FieldMatches(p.fullName, term) || FieldMatches(p.currentCompany, term) || FieldMatches(p.major, term)
  }

  function HasSearchedField(): Profile -> bool {
    (p: Profile) => p.fullName.Some? || p.currentCompany.Some? || p.major.Some?
  }

  /** `fetchMentors`: the profiles with both flags true; a null flag does
      not count as true. */
  function MentorDirectory(profiles: seq<Profile>): (r: seq<Profile>)
    ensures forall p :: p in r <==> p in profiles && p.isMentor == Some(true) && p.isAvailableForMentorship == Some(true)
    ensures IsSubseq(r, profiles)
  {
    Filter(profiles, IsListed())
  }

  /** `filteredMentors`: a mentor stays when the term occurs, ignoring case,
      in the full name, company or major; null columns never match. */
  function FilteredMentors(mentors: seq<Profile>, term: string): (r: seq<Profile>)
    ensures forall p :: p in r <==>
              p in mentors && (FieldMatches(p.fullName, term) || FieldMatches(p.currentCompany, term) || FieldMatches(p.major, term))
    ensures IsSubseq(r, mentors)
  {
    Filter(mentors, MatchesTerm(term))
  }

  /** With the empty term the search keeps exactly the mentors that have at
      least one of the three columns non-null, in order; a mentor with all
      three null is hidden even then. */
  lemma {:induction false} EmptyTermKeepsNonNull(mentors: seq<Profile>)
    ensures FilteredMentors(mentors, "") == Filter(mentors, HasSearchedField())
    ensures forall p :: p in mentors && p.fullName.None? && p.currentCompany.None? && p.major.None?
                        ==> p !in FilteredMentors(mentors, "")
  {
    if |mentors| > 0 {
      var p := mentors[0];
      if p.fullName.Some? { MatchIgnoresTermCase(p.fullName.value, ""); }
      if p.currentCompany.Some? { MatchIgnoresTermCase(p.currentCompany.value, ""); }
      if p.major.Some? { MatchIgnoresTermCase(p.major.value, ""); }
      EmptyTermKeepsNonNull(mentors[1..]);
    }
  }

  /** `requestMentorship`: with no user nothing is inserted; otherwise a row
      naming the chosen mentor, the viewer as mentee and the fixed message,
      with the status left to the store. No earlier request is looked for. */
  function RequestMentorship(viewer: Viewer, mentorId: UserId): (r: Result<MentorshipInsert>)
    ensures r.Err? <==> viewer.None?
    ensures r.Err? ==> r.failure == AuthRequired
    ensures r.Ok? ==> r.value.mentorId == mentorId && r.value.menteeId == viewer.value
                      && r.value.message == Some(RequestMessage) && r.value.status.None?
  {
    if viewer.None? then Err(AuthRequired)
    else Ok(MentorshipInsert(mentorId, viewer.value, Some(RequestMessage), None))
  }

  function Between(mentorId: UserId, menteeId: UserId): Mentorship -> bool {
    (m: Mentorship) => m.mentorId == mentorId && m.menteeId == menteeId
  }

  /** The store taking one request: the new row is appended. */
  function StoreRequest(table: seq<Mentorship>, ins: MentorshipInsert, id: RowId, at: Time, defaultStatus: string): seq<Mentorship> {
    table + [StoreMentorship(ins, id, at, defaultStatus)]
  }

  /** A listed mentor, requested by a signed-in viewer, gets a row naming
      them as mentor and the viewer as mentee with the store's default
      status; requesting again adds a second such row. */
  lemma {:induction false} RequestScenario(profiles: seq<Profile>, a: Profile, viewer: UserId, table: seq<Mentorship>,
                                           id1: RowId, id2: RowId, at: Time, defaultStatus: string)
    requires a in profiles && a.isMentor == Some(true) && a.isAvailableForMentorship == Some(true)
    ensures a in MentorDirectory(profiles)
    ensures var ins := RequestMentorship(Some(viewer), a.userId).value;
            var once := StoreRequest(table, ins, id1, at, defaultStatus);
            var twice := StoreRequest(once, ins, id2, at, defaultStatus);
            && once[|table|] == Mentorship(id1, a.userId, viewer, Some(RequestMessage), defaultStatus, at, at)
            && CountIf(twice, Between(a.userId, viewer)) == CountIf(table, Between(a.userId, viewer)) + 2
  {
    var ins := RequestMentorship(Some(viewer), a.userId).value;
    var once := StoreRequest(table, ins, id1, at, defaultStatus);
    FilterSnoc(table, StoreMentorship(ins, id1, at, defaultStatus), Between(a.userId, viewer));
    FilterSnoc(once, StoreMentorship(ins, id2, at, defaultStatus), Between(a.userId, viewer));
  }
}
