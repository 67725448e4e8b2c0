/** The referrals page: the open list with its search, the viewer's own
    requests, the Offer Referral action and its button guard, and the
    request form. */
module GetReferrals {
  import opened Base
  import opened Text
  import opened Tables
  import opened Seqs

  const Open := "open"
  const Accepted := "accepted"

  function IsOpen(): ReferralRequest -> bool { (r: ReferralRequest) => r.status == Open }

  function RequestedBy(viewer: UserId): ReferralRequest -> bool {
    (r: ReferralRequest) => r.requesterId == viewer
  }

  function MatchesTerm(term: string): ReferralRequest -> bool {
    (r: ReferralRequest) => MatchesIgnoringCase(r.company, term) || MatchesIgnoringCase(r.position, term)
  }

  function OtherThan(id: RowId): ReferralRequest -> bool { (r: ReferralRequest) => r.id != id }

  /** `fetchReferralRequests`: every open request (the store orders them
      newest first). */
  function OpenRequests(table: seq<ReferralRequest>): (r: seq<ReferralRequest>)
    ensures forall q :: q in r <==> q in table && q.status == Open
    ensures IsSubseq(r, table)
  {
    Filter(table, IsOpen())
  }

  /** `fetchMyRequests`: every request the viewer made, whatever its status. */
  function MyRequests(table: seq<ReferralRequest>, viewer: UserId): (r: seq<ReferralRequest>)
    ensures forall q :: q in r <==> q in table && q.requesterId == viewer
    ensures IsSubseq(r, table)
  {
    Filter(table, RequestedBy(viewer))
  }

  /** `filteredRequests`: a request stays when the lower-cased term occurs in
      its lower-cased company or position; the empty term keeps the whole
      open list, in order. */
  function FilteredRequests(open: seq<ReferralRequest>, term: string): (r: seq<ReferralRequest>)
    ensures forall q :: q in r <==> q in open && (Contains(Lower(q.company), Lower(term)) || Contains(Lower(q.position), Lower(term)))
    ensures IsSubseq(r, open)
    ensures term == "" ==> r == open
  {
    if term == "" then
      forall q | q in open ensures MatchesTerm(term)(q) {
        MatchIgnoresTermCase(q.company, term);
      }
      FilterAll(open, MatchesTerm(term));
      Filter(open, MatchesTerm(term))
    else Filter(open, MatchesTerm(term))
  }

  /** The Offer Referral button shows on open requests the viewer did not
      make. With no user `requester_id !== undefined` holds, so the button
      shows, and pressing it only asks the user to sign in; the lists are
      fetched only while a user is signed in, so this case arises only from
      lists left over after signing out. */
  predicate CanOffer(q: ReferralRequest, viewer: Viewer) {
    q.status == Open && (viewer.None? || q.requesterId != viewer.value)
  }

  /** `offerReferral`: `update({referee_id, status: 'accepted'}).eq('id', …)`.
      With no user nothing is written. Otherwise exactly the rows with that
      id get the viewer as referee and status "accepted" in one step; their
      other fields and all other rows are unchanged. Neither the current
      status nor the requester is checked. */
  function OfferReferral(table: seq<ReferralRequest>, viewer: Viewer, requestId: RowId): (r: seq<ReferralRequest>)
    ensures viewer.None? ==> r == table
    ensures |r| == |table|
    ensures forall i :: 0 <= i < |r| && table[i].id != requestId ==> r[i] == table[i]
    ensures viewer.Some? ==> forall i :: 0 <= i < |r| && table[i].id == requestId ==>
              && r[i].refereeId == viewer && r[i].status == Accepted
              && r[i].(refereeId := table[i].refereeId, status := table[i].status) == table[i]
  {
    if viewer.None? then table
    else
      seq(|table|, i requires 0 <= i < |table| =>
        if table[i].id == requestId then table[i].(refereeId := viewer, status := Accepted) else table[i])
  }

  /** After a successful offer the re-fetched open list is the old one
      without the offered request, in the same order. */
  lemma {:induction false} OfferLeavesOpenList(table: seq<ReferralRequest>, viewer: UserId, requestId: RowId)
    ensures OpenRequests(OfferReferral(table, Some(viewer), requestId)) == Filter(OpenRequests(table), OtherThan(requestId))
  {
    if |table| > 0 {
      assert OfferReferral(table, Some(viewer), requestId)[1..] == OfferReferral(table[1..], Some(viewer), requestId);
      OfferLeavesOpenList(table[1..], viewer, requestId);
      var rest := Filter(table[1..], IsOpen());
      if table[0].status == Open {
        assert ([table[0]] + rest)[1..] == rest;
      }
    }
  }

  /** The button shows only on listed open requests of other users, and
      once an offer is written it shows for nobody on that request. */
  lemma OfferButtonGuard(table: seq<ReferralRequest>, q: ReferralRequest, viewer: UserId, anyone: Viewer)
    requires q in table && CanOffer(q, Some(viewer))
    ensures q in OpenRequests(table) && q.requesterId != viewer
    ensures forall t :: t in OfferReferral(table, Some(viewer), q.id) && t.id == q.id ==> !CanOffer(t, anyone)
  {
  }

  /** A second offer on the same request overwrites the first: the last
      offerer becomes the referee. */
  lemma RepeatOfferOverwrites(table: seq<ReferralRequest>, first: UserId, second: UserId, requestId: RowId)
    ensures OfferReferral(OfferReferral(table, Some(first), requestId), Some(second), requestId)
         == OfferReferral(table, Some(second), requestId)
  {
  }

  /** The request dialog's state. */
  datatype RequestForm = RequestForm(company: string, position: string, message: string)

  const InitialRequestForm := RequestForm("", "", "")

  /** `createReferralRequest`: with no user nothing is inserted; otherwise
      the form is sent with the viewer as requester, and the referee and
      status are left to the store. */
  function CreateReferralRequest(viewer: Viewer, f: RequestForm): (r: Result<ReferralInsert>)
    ensures r.Err? <==> viewer.None?
    ensures r.Err? ==> r.failure == AuthRequired
    ensures r.Ok? ==> r.value.requesterId == viewer.value && r.value.company == f.company
                      && r.value.position == f.position && r.value.message == Some(f.message)
                      && r.value.refereeId.None? && r.value.status.None?
  {
    if viewer.None? then Err(AuthRequired)
    else Ok(ReferralInsert(viewer.value, f.company, f.position, Some(f.message), None, None))
  }

  /** Once the store has taken a new request, it is in the viewer's list,
      and it is in the open list exactly when the store's default status is
      "open". */
  lemma NewRequestListed(table: seq<ReferralRequest>, viewer: UserId, f: RequestForm, id: RowId, at: Time, defaultStatus: string)
    ensures var row := StoreReferral(CreateReferralRequest(Some(viewer), f).value, id, at, defaultStatus);
            && row in MyRequests(table + [row], viewer)
            && (row in OpenRequests(table + [row]) <==> defaultStatus == Open)
  {
  }
}
