/** The change-request state machine: a member proposes a new face photo; an ADMIN approves it
    onto the membership or rejects it. The proposed photo lives on the image host; a rejection,
    a re-upload and the deletion of a PENDING request ask the host to delete it. */
module ChangeRequests {
  import opened Models
  import opened Stores
  import Repositories

  datatype ChangeRequest = ChangeRequest(
    id: DocId,
    userId: UserId,
    organizationId: OrgId,
    newFaceImageId: ImageId,
    status: RequestStatus,
    requestedAt: Instant,
    updatedAt: Option<Instant>)

  datatype ChangeRequestResponse = ChangeRequestResponse(
    id: DocId,
    status: RequestStatus,
    requestedAt: Instant,
    organizationId: OrgId,
    userFullName: string,
    currentFaceUrl: Option<Url>,
    newFaceUrl: Url)

  /** A call made to the image host: an upload with the public id it answered, or a delete. */
  datatype HostCall = Upload(answered: Option<ImageId>) | Delete(publicId: ImageId)

  type RequestStore = map<DocId, ChangeRequest>

  /** The ASCII characters Kotlin counts as whitespace: tab through carriage return, the
      four information separators U+001C to U+001F, and space. */
  predicate IsWhitespace(c: char) {
    ('\t' <= c <= '\r') || ('\U{1C}' <= c <= '\U{1F}') || c == ' '
  }

  /** Empty or made of whitespace only. */
  predicate IsBlank(s: string) {
    forall i :: 0 <= i < |s| ==> IsWhitespace(s[i])
  }

  /** Kotlin's `ifBlank { null }` on a present string. */
  function IfBlankNull(s: string): Option<string> {
    if IsBlank(s) then None else Some(s)
  }

  /** Whether the membership carries its own usable photo. */
  predicate HasOwnFace(member: Option<OrganizationMember>) {
    member.Some? && member.value.faceImageId.Some? && !IsBlank(member.value.faceImageId.value)
  }

  /** The photo currently in force: the membership's own photo when it is present and not
      blank, otherwise the account-level photo. */
  function CurrentFaceId(member: Option<OrganizationMember>, user: User): (r: Option<ImageId>)
    ensures HasOwnFace(member) ==> r == member.value.faceImageId
    ensures !HasOwnFace(member) ==> r == user.faceImageId
    ensures r.Some? ==> !IsBlank(r.value) || r == user.faceImageId
  {
    var own := if member.Some? && member.value.faceImageId.Some? then IfBlankNull(member.value.faceImageId.value) else None;
    if own.Some? then own else user.faceImageId
  }

  /** Once approval writes a non-blank photo onto the membership, that photo is the one in
      force, whatever the account-level photo is. */
  lemma ApprovedFaceIsCurrent(member: OrganizationMember, user: User, image: ImageId)
    requires !IsBlank(image)
    ensures CurrentFaceId(Some(member.(faceImageId := Some(image))), user) == Some(image)
    ensures SignedUrlOf(CurrentFaceId(Some(member.(faceImageId := Some(image))), user)) == Some(SignedUrl(image))
  {
  }

  /** A blank photo on the membership never hides the account-level photo. */
  lemma BlankFaceFallsBack(member: OrganizationMember, user: User, image: ImageId)
    requires IsBlank(image)
    ensures CurrentFaceId(Some(member.(faceImageId := Some(image))), user) == user.faceImageId
  {
  }

  /** The response: the request's own fields, the requester's name, and the signed URLs of the
      photo in force and of the proposed one. */
  function ToResponse(r: ChangeRequest, member: Option<OrganizationMember>, user: User): (v: ChangeRequestResponse)
    ensures v.id == r.id && v.status == r.status && v.requestedAt == r.requestedAt && v.organizationId == r.organizationId
    ensures v.userFullName == user.fullName
    ensures v.newFaceUrl.publicId == r.newFaceImageId
    ensures v.currentFaceUrl.Some? <==> CurrentFaceId(member, user).Some?
    ensures HasOwnFace(member) ==> v.currentFaceUrl == Some(SignedUrl(member.value.faceImageId.value))
    ensures !HasOwnFace(member) ==> v.currentFaceUrl == SignedUrlOf(user.faceImageId)
  {
    ChangeRequestResponse(r.id, r.status, r.requestedAt, r.organizationId, user.fullName,
      SignedUrlOf(CurrentFaceId(member, user)), SignedUrl(r.newFaceImageId))
  }

  predicate IsPendingFor(r: ChangeRequest, userId: UserId, organizationId: OrgId) {
    r.status == Pending && r.userId == userId && r.organizationId == organizationId
  }

  /** Whether the user already has a PENDING change request in the organization. */
  predicate HasPending(requests: RequestStore, userId: UserId, organizationId: OrgId) {
    exists k :: k in requests && IsPendingFor(requests[k], userId, organizationId)
  }

  /** At most one PENDING change request per (user, organization). */
  ghost predicate OnePendingPerPair(requests: RequestStore) {
    forall a, b ::
      a in requests && b in requests && requests[a].status == Pending && requests[b].status == Pending &&
      requests[a].userId == requests[b].userId && requests[a].organizationId == requests[b].organizationId
      ==> a == b
  }

  /** Saving a record under an id it already has (an upsert) changes nothing about which pairs
      have PENDING requests unless the record's own status or pair changes. */
  lemma SaveInPlaceKeepsOnePending(requests: RequestStore, id: DocId, r: ChangeRequest)
    requires id in requests
    requires r.userId == requests[id].userId && r.organizationId == requests[id].organizationId
    requires r.status == Pending ==> requests[id].status == Pending
    ensures OnePendingPerPair(requests) ==> OnePendingPerPair(requests[id := r])
  {
  }

  /** Storing a new PENDING request for a pair with none keeps one PENDING request per pair. */
  lemma SaveNewKeepsOnePending(requests: RequestStore, id: DocId, r: ChangeRequest)
    requires id !in requests
    requires !HasPending(requests, r.userId, r.organizationId)
    ensures OnePendingPerPair(requests) ==> OnePendingPerPair(requests[id := r])
  {
    var after := requests[id := r];
    if OnePendingPerPair(requests) {
      forall a, b | a in after && b in after && after[a].status == Pending && after[b].status == Pending &&
        after[a].userId == after[b].userId && after[a].organizationId == after[b].organizationId
        ensures a == b
      {
        if a != b && (a == id || b == id) {
          var other := if a == id then b else a;
          assert IsPendingFor(requests[other], r.userId, r.organizationId);
        }
      }
    }
  }

  /** Whether the requests come in strictly ascending id order, hence each at most once. */
  predicate AscendingIds(s: seq<ChangeRequest>) {
    forall i, j :: 0 <= i < j < |s| ==> s[i].id < s[j].id
  }

  /** Whether the responses come in strictly ascending id order, hence each at most once. */
  predicate AscendingViewIds(r: seq<ChangeRequestResponse>) {
    forall i, j :: 0 <= i < j < |r| ==> r[i].id < r[j].id
  }

  /** The duplicate check of createRequest: whether the user appears among the organization's
      PENDING requests, as a query returns them, is whether the pair has a PENDING request. */
  lemma HasPendingIsQueryAny(requests: RequestStore, bound: nat, userId: UserId, organizationId: OrgId)
    requires forall k :: k in requests ==> k < bound
    ensures HasPending(requests, userId, organizationId) <==>
      exists q :: q in Select(requests, bound, (e: ChangeRequest) => e.organizationId == organizationId && e.status == Pending) && q.userId == userId
  {
    var pending := Select(requests, bound, (e: ChangeRequest) => e.organizationId == organizationId && e.status == Pending);
    if HasPending(requests, userId, organizationId) {
      var k :| k in requests && IsPendingFor(requests[k], userId, organizationId);
      assert requests[k] in pending;
    }
  }

  /** A non-empty list is its head followed by its tail, and ascending order carries to the tail. */
  lemma SplitHead(reqs: seq<ChangeRequest>)
    requires reqs != []
    ensures forall q :: q in reqs <==> q == reqs[0] || q in reqs[1..]
    ensures AscendingIds(reqs) ==> AscendingIds(reqs[1..]) && (|reqs| > 1 ==> reqs[0].id < reqs[1..][0].id)
  {
    assert forall q :: q in reqs[1..] ==> q in reqs;
  }

  /** The responses for the requests of `organizationId` whose user and membership both exist;
      the others are dropped, and the kept ones stay in their order. */
  function PendingViews(reqs: seq<ChangeRequest>, organizationId: OrgId, users: map<UserId, User>,
                        members: map<(UserId, OrgId), OrganizationMember>): (r: seq<ChangeRequestResponse>)
    ensures |r| <= |reqs|
    ensures AscendingIds(reqs) ==> AscendingViewIds(r)
    ensures AscendingIds(reqs) && reqs != [] ==> forall i :: 0 <= i < |r| ==> reqs[0].id <= r[i].id
    ensures forall v :: v in r ==>
      exists q :: q in reqs && q.userId in users && (q.userId, organizationId) in members &&
        v == ToResponse(q, Some(members[(q.userId, organizationId)]), users[q.userId])
    ensures forall q :: q in reqs && q.userId in users && (q.userId, organizationId) in members ==>
      ToResponse(q, Some(members[(q.userId, organizationId)]), users[q.userId]) in r
  {
    if reqs == [] then []
    else
      var rest := PendingViews(reqs[1..], organizationId, users, members);
      SplitHead(reqs);
      var q := reqs[0];
      if q.userId in users && (q.userId, organizationId) in members then
        [ToResponse(q, Some(members[(q.userId, organizationId)]), users[q.userId])] + rest
      else rest
  }

  class ChangeRequestService {
    var requests: RequestStore
    var nextId: DocId
    ghost var hostCalls: seq<HostCall>
    ghost var syncCalls: seq<SyncCall>
    const memberRepo: Repositories.MemberRepository
    const userRepo: Repositories.UserRepository

    /** Every stored request carries its own id, and ids are minted below nextId. */
    ghost predicate Valid()
      reads this
    {
      forall k :: k in requests ==> k < nextId && requests[k].id == k
    }

    constructor (memberRepo: Repositories.MemberRepository, userRepo: Repositories.UserRepository)
      ensures Valid() && requests == map[] && hostCalls == [] && syncCalls == []
      ensures this.memberRepo == memberRepo && this.userRepo == userRepo
    {
      this.memberRepo := memberRepo;
      this.userRepo := userRepo;
      requests := map[];
      nextId := 0;
      hostCalls := [];
      syncCalls := [];
    }

    /** `uploaded` is the public id the image host answers for the processed photo, if any. */
    method CreateRequest(userId: UserId, organizationId: OrgId, uploaded: Option<ImageId>, now: Instant)
      returns (r: Result<ChangeRequest>)
      requires Valid()
      modifies this
      ensures Valid() && syncCalls == old(syncCalls)
      ensures (userId, organizationId) !in memberRepo.members ==> r == Err(NotMember) && unchanged(this)
      ensures (userId, organizationId) in memberRepo.members && HasPending(old(requests), userId, organizationId) ==>
        r == Err(DuplicatePending) && unchanged(this)
      ensures (userId, organizationId) in memberRepo.members && !HasPending(old(requests), userId, organizationId) ==>
        && hostCalls == old(hostCalls) + [Upload(uploaded)]
        && if uploaded.None? then
             r == Err(UploadFailed) && requests == old(requests) && nextId == old(nextId)
           else
             var saved := ChangeRequest(old(nextId), userId, organizationId, uploaded.value, Pending, now, None);
             && requests == old(requests)[old(nextId) := saved]
             && nextId == old(nextId) + 1
             && r == Ok(saved)
      ensures old(OnePendingPerPair(requests)) ==> OnePendingPerPair(requests)
    {
      var member := memberRepo.FindByUserIdAndOrganizationId(userId, organizationId);
      if member.None? {
        return Err(NotMember);
      }
      if HasPending(requests, userId, organizationId) {
        return Err(DuplicatePending);
      }
      hostCalls := hostCalls + [Upload(uploaded)];
      if uploaded.None? {
        return Err(UploadFailed);
      }
      var request := ChangeRequest(nextId, userId, organizationId, uploaded.value, Pending, now, None);
      SaveNewKeepsOnePending(requests, nextId, request);
      requests := requests[nextId := request];
      nextId := nextId + 1;
      r := Ok(request);
    }

    method ReviewRequest(requestId: DocId, adminUserId: UserId, approved: bool, now: Instant) returns (r: Outcome)
      requires Valid()
      modifies this, memberRepo
      ensures Valid() && nextId == old(nextId)
      ensures requestId !in old(requests) ==> r == Fail(NotFound) && unchanged(this, memberRepo)
      ensures requestId in old(requests) && old(requests)[requestId].status != Pending ==>
        r == Fail(AlreadyProcessed) && unchanged(this, memberRepo)
      ensures requestId in old(requests) && old(requests)[requestId].status == Pending ==>
        var req := old(requests)[requestId];
        var admin := old(memberRepo.FindByUserIdAndOrganizationId(adminUserId, req.organizationId));
        if admin.None? || admin.value.role != Admin then r == Fail(Forbidden) && unchanged(this, memberRepo)
        else if approved then
          if (req.userId, req.organizationId) !in old(memberRepo.members) then
            r == Fail(MemberNotFound) && unchanged(this, memberRepo)
          else
            && r == Done
            && memberRepo.members == old(memberRepo.members)[(req.userId, req.organizationId) :=
                 old(memberRepo.members)[(req.userId, req.organizationId)].(faceImageId := Some(req.newFaceImageId))]
            && requests == old(requests)[requestId := req.(status := Approved, updatedAt := Some(now))]
            && hostCalls == old(hostCalls)
            && syncCalls == old(syncCalls) + [SyncNewMember(req.organizationId, req.userId)]
        else
          && r == Done
          && memberRepo.members == old(memberRepo.members)
          && requests == old(requests)[requestId := req.(status := Denied, updatedAt := Some(now))]
          && hostCalls == old(hostCalls) + [Delete(req.newFaceImageId)]
          && syncCalls == old(syncCalls)
      ensures old(OnePendingPerPair(requests)) ==> OnePendingPerPair(requests)
    {
      if requestId !in requests {
        return Fail(NotFound);
      }
      var request := requests[requestId];
      if request.status != Pending {
        return Fail(AlreadyProcessed);
      }
      var adminMember := memberRepo.FindByUserIdAndOrganizationId(adminUserId, request.organizationId);
      if adminMember.None? || adminMember.value.role != Admin {
        return Fail(Forbidden);
      }
      if approved {
        r := Approve(request, now);
      } else {
        Reject(request, now);
        r := Done;
      }
    }

    /** approve: the proposed photo becomes the membership's photo; nothing is deleted. */
    method Approve(request: ChangeRequest, now: Instant) returns (r: Outcome)
      requires Valid() && request.id in requests && requests[request.id] == request
      modifies this, memberRepo
      ensures Valid() && nextId == old(nextId) && hostCalls == old(hostCalls)
      ensures (request.userId, request.organizationId) !in old(memberRepo.members) ==>
        r == Fail(MemberNotFound) && unchanged(this, memberRepo)
      ensures (request.userId, request.organizationId) in old(memberRepo.members) ==>
        var key := (request.userId, request.organizationId);
        && r == Done
        && memberRepo.members == old(memberRepo.members)[key := old(memberRepo.members)[key].(faceImageId := Some(request.newFaceImageId))]
        && requests == old(requests)[request.id := request.(status := Approved, updatedAt := Some(now))]
        && syncCalls == old(syncCalls) + [SyncNewMember(request.organizationId, request.userId)]
      ensures old(OnePendingPerPair(requests)) ==> OnePendingPerPair(requests)
    {
      var member := memberRepo.FindByUserIdAndOrganizationId(request.userId, request.organizationId);
      if member.None? {
        return Fail(MemberNotFound);
      }
      var key := (request.userId, request.organizationId);
      memberRepo.members := memberRepo.members[key := member.value.(faceImageId := Some(request.newFaceImageId))];
      var updatedReq := request.(status := Approved, updatedAt := Some(now));
      SaveInPlaceKeepsOnePending(requests, request.id, updatedReq);
      requests := requests[request.id := updatedReq];
      syncCalls := syncCalls + [SyncNewMember(request.organizationId, request.userId)];
      r := Done;
    }

    /** reject: exactly one delete, of the proposed photo; the membership is untouched. */
    method Reject(request: ChangeRequest, now: Instant)
      requires Valid() && request.id in requests && requests[request.id] == request
      modifies this
      ensures Valid() && nextId == old(nextId) && syncCalls == old(syncCalls)
      ensures hostCalls == old(hostCalls) + [Delete(request.newFaceImageId)]
      ensures requests == old(requests)[request.id := request.(status := Denied, updatedAt := Some(now))]
      ensures old(OnePendingPerPair(requests)) ==> OnePendingPerPair(requests)
    {
      hostCalls := hostCalls + [Delete(request.newFaceImageId)];
      var updatedReq := request.(status := Denied, updatedAt := Some(now));
      SaveInPlaceKeepsOnePending(requests, request.id, updatedReq);
      requests := requests[request.id := updatedReq];
    }

    /** updateRequest: a re-upload for a PENDING request. The old proposed photo is deleted
        before the new one is uploaded, so a failed upload leaves the request pointing at a
        deleted photo. */
    method UpdateRequest(requestId: DocId, uploaded: Option<ImageId>, now: Instant) returns (r: Result<ChangeRequest>)
      requires Valid()
      modifies this
      ensures Valid() && nextId == old(nextId) && syncCalls == old(syncCalls)
      ensures requestId !in old(requests) ==> r == Err(NotFound) && unchanged(this)
      ensures requestId in old(requests) && old(requests)[requestId].status != Pending ==>
        r == Err(AlreadyProcessed) && unchanged(this)
      ensures requestId in old(requests) && old(requests)[requestId].status == Pending ==>
        var req := old(requests)[requestId];
        && hostCalls == old(hostCalls) + [Delete(req.newFaceImageId), Upload(uploaded)]
        && if uploaded.None? then
             r == Err(UploadFailed) && requests == old(requests)
           else
             var saved := req.(newFaceImageId := uploaded.value, updatedAt := Some(now));
             && requests == old(requests)[requestId := saved]
             && saved.status == Pending
             && r == Ok(saved)
      ensures old(OnePendingPerPair(requests)) ==> OnePendingPerPair(requests)
    {
      if requestId !in requests {
        return Err(NotFound);
      }
      var request := requests[requestId];
      if request.status != Pending {
        return Err(AlreadyProcessed);
      }
      hostCalls := hostCalls + [Delete(request.newFaceImageId)];
      hostCalls := hostCalls + [Upload(uploaded)];
      if uploaded.None? {
        return Err(UploadFailed);
      }
      var updatedRequest := request.(newFaceImageId := uploaded.value, updatedAt := Some(now));
      SaveInPlaceKeepsOnePending(requests, requestId, updatedRequest);
      requests := requests[requestId := updatedRequest];
      r := Ok(updatedRequest);
    }

    /** deleteRequest: the proposed photo is deleted only while the request is PENDING. */
    method DeleteRequest(requestId: DocId) returns (r: Outcome)
      requires Valid()
      modifies this
      ensures Valid() && nextId == old(nextId) && syncCalls == old(syncCalls)
      ensures requestId !in old(requests) ==> r == Fail(NotFound) && unchanged(this)
      ensures requestId in old(requests) ==>
        var req := old(requests)[requestId];
        && r == Done
        && requests == old(requests) - {requestId}
        && hostCalls == old(hostCalls) + (if req.status == Pending then [Delete(req.newFaceImageId)] else [])
      ensures old(OnePendingPerPair(requests)) ==> OnePendingPerPair(requests)
    {
      if requestId !in requests {
        return Fail(NotFound);
      }
      var request := requests[requestId];
      if request.status == Pending {
        hostCalls := hostCalls + [Delete(request.newFaceImageId)];
      }
      requests := requests - {requestId};
      r := Done;
    }

    /** listPendingRequests: the PENDING requests of the organization whose user and
        membership both exist, each with its current and proposed photo. */
    function ListPendingRequests(organizationId: OrgId): (r: seq<ChangeRequestResponse>)
      reads this, memberRepo, userRepo
      requires Valid()
      ensures forall v :: v in r ==>
        && v.id in requests && IsPendingFor(requests[v.id], requests[v.id].userId, organizationId)
        && requests[v.id].userId in userRepo.users
        && (requests[v.id].userId, organizationId) in memberRepo.members
        && v == ToResponse(requests[v.id], Some(memberRepo.members[(requests[v.id].userId, organizationId)]),
                           userRepo.users[requests[v.id].userId])
      ensures forall k ::
        k in requests && IsPendingFor(requests[k], requests[k].userId, organizationId) &&
        requests[k].userId in userRepo.users && (requests[k].userId, organizationId) in memberRepo.members
        ==> ToResponse(requests[k], Some(memberRepo.members[(requests[k].userId, organizationId)]),
                       userRepo.users[requests[k].userId]) in r
      ensures AscendingViewIds(r)
    {
      var pending := Select(requests, nextId, (q: ChangeRequest) => q.organizationId == organizationId && q.status == Pending);
      assert forall q :: q in pending ==> q.id in requests && requests[q.id] == q;
      assert AscendingIds(pending);
      PendingViews(pending, organizationId, userRepo.users, memberRepo.members)
    }

    /** getRequestById: none when the request or its user is missing; the membership is optional. */
    function GetRequestById(requestId: DocId): (r: Option<ChangeRequestResponse>)
      reads this, memberRepo, userRepo
      ensures r.Some? <==> requestId in requests && requests[requestId].userId in userRepo.users
      ensures r.Some? ==>
        r.value == ToResponse(requests[requestId],
                              Repositories.LookupMember(memberRepo.members, requests[requestId].userId, requests[requestId].organizationId),
                              userRepo.users[requests[requestId].userId])
    {
      if requestId !in requests then None
      else
        var request := requests[requestId];
        var user := userRepo.FindById(request.userId);
        if user.None? then None
        else
          var member := memberRepo.FindByUserIdAndOrganizationId(request.userId, request.organizationId);
          Some(ToResponse(request, member, user.value))
    }

    /** listUserRequests: every request of the user, or nothing when the user is unknown. */
    function ListUserRequests(userId: UserId): (r: seq<ChangeRequestResponse>)
      reads this, memberRepo, userRepo
      requires Valid()
      ensures userId !in userRepo.users ==> r == []
      ensures userId in userRepo.users ==>
        && (forall v :: v in r ==>
              v.id in requests && requests[v.id].userId == userId &&
              v == ToResponse(requests[v.id], Repositories.LookupMember(memberRepo.members, userId, requests[v.id].organizationId), userRepo.users[userId]))
        && (forall k :: k in requests && requests[k].userId == userId ==>
              ToResponse(requests[k], Repositories.LookupMember(memberRepo.members, userId, requests[k].organizationId), userRepo.users[userId]) in r)
      ensures AscendingViewIds(r)
    {
      var mine := Select(requests, nextId, (q: ChangeRequest) => q.userId == userId);
      var user := userRepo.FindById(userId);
      if user.None? then []
      else
        var members := memberRepo.members;
        assert forall q :: q in mine ==> q.id in requests && requests[q.id] == q;
        Project(mine, (q: ChangeRequest) => ToResponse(q, Repositories.LookupMember(members, userId, q.organizationId), user.value))
    }
  }
}
