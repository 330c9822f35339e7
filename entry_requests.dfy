/** The entry-request state machine: a user asks to join an organization with a role;
    an approval turns the request into an ACTIVE membership. */
module EntryRequests {
  import opened Models
  import opened Stores
  import Repositories

  datatype EntryRequest = EntryRequest(
    id: DocId,
    userId: UserId,
    organizationId: OrgId,
    hubCode: HubCode,
    role: Role,
    status: RequestStatus,
    requestedAt: Instant)

  datatype EntryRequestResponse = EntryRequestResponse(
    id: DocId,
    hubCode: HubCode,
    role: Role,
    status: RequestStatus,
    requestedAt: Instant,
    user: UserView)

  type RequestStore = map<DocId, EntryRequest>

  predicate IsPendingFor(r: EntryRequest, userId: UserId, organizationId: OrgId) {
    r.status == Pending && r.userId == userId && r.organizationId == organizationId
  }

  /** Whether the user already has a PENDING request for the organization. */
  predicate HasPending(requests: RequestStore, userId: UserId, organizationId: OrgId) {
    exists k :: k in requests && IsPendingFor(requests[k], userId, organizationId)
  }

  /** At most one PENDING request per (user, organization). */
  ghost predicate OnePendingPerPair(requests: RequestStore) {
    forall a, b ::
      a in requests && b in requests && requests[a].status == Pending && requests[b].status == Pending &&
      requests[a].userId == requests[b].userId && requests[a].organizationId == requests[b].organizationId
      ==> a == b
  }

  /** EntryRequestRepository.save: a copy of the record under a freshly minted id. */
  function SaveNew(requests: RequestStore, id: DocId, r: EntryRequest): (after: RequestStore)
    ensures after.Keys == requests.Keys + {id}
    ensures after[id] == r.(id := id) && after[id].id == id
    ensures forall k :: k in requests && k != id ==> after[k] == requests[k]
  {
    requests[id := r.(id := id)]
  }

  /** EntryRequestRepository.updateStatus: only the status field of the document changes. */
  function UpdateStatus(requests: RequestStore, id: DocId, status: RequestStatus): (after: RequestStore)
    requires id in requests
    ensures after.Keys == requests.Keys
    ensures after[id].status == status && after[id] == requests[id].(status := after[id].status)
    ensures forall k :: k in requests && k != id ==> after[k] == requests[k]
  {
    requests[id := requests[id].(status := status)]
  }

  /** The request with its role overwritten when a role is supplied. */
  function EditRole(r: EntryRequest, role: Option<Role>): (e: EntryRequest)
    ensures role.Some? ==> e.role == role.value
    ensures role.None? ==> e == r
    ensures e == r.(role := e.role)
  {
    if role.Some? then r.(role := role.value) else r
  }

  /** The directory list an organization keeps for a role. */
  function RoleList(org: Organization, role: Role): set<UserId> {
    match role
    case Member => org.memberIds
    case Validator => org.validatorIds
    case Admin => org.adminIds
  }

  /** The organization after addMemberToOrganization, addValidatorToOrganization or
      addAdminToOrganization, whichever the role selects. */
  function Enrol(org: Organization, role: Role, userId: UserId): (r: Organization)
    ensures r.id == org.id && r.hubCode == org.hubCode
    ensures RoleList(r, role) == RoleList(org, role) + {userId}
    ensures forall other :: other != role ==> RoleList(r, other) == RoleList(org, other)
  {
    match role
    case Member => org.(memberIds := org.memberIds + {userId})
    case Validator => org.(validatorIds := org.validatorIds + {userId})
    case Admin => org.(adminIds := org.adminIds + {userId})
  }

  /** Storing a new PENDING request for a pair with none keeps one PENDING request per pair. */
  lemma SaveNewKeepsOnePending(requests: RequestStore, id: DocId, r: EntryRequest)
    requires id !in requests
    requires !HasPending(requests, r.userId, r.organizationId)
    ensures OnePendingPerPair(requests) ==> OnePendingPerPair(SaveNew(requests, id, r))
  {
    var after := SaveNew(requests, id, r);
    if OnePendingPerPair(requests) {
      forall a, b | a in after && b in after && after[a].status == Pending && after[b].status == Pending &&
        after[a].userId == after[b].userId && after[a].organizationId == after[b].organizationId
        ensures a == b
      {
        if a == id && b != id {
          assert IsPendingFor(requests[b], r.userId, r.organizationId);
        } else if b == id && a != id {
          assert IsPendingFor(requests[a], r.userId, r.organizationId);
        }
      }
    }
  }

  /** Moving a request out of PENDING keeps one PENDING request per pair. */
  lemma ConcludeKeepsOnePending(requests: RequestStore, id: DocId, status: RequestStatus)
    requires id in requests && status != Pending
    ensures OnePendingPerPair(requests) ==> OnePendingPerPair(UpdateStatus(requests, id, status))
  {
  }

  /** A role edit written back under the same id keeps one PENDING request per pair. */
  lemma EditInPlaceKeepsOnePending(requests: RequestStore, id: DocId, role: Option<Role>)
    requires id in requests
    ensures OnePendingPerPair(requests) ==> OnePendingPerPair(requests[id := EditRole(requests[id], role)])
  {
  }

  /** The edit as written saves the edited PENDING request under a fresh id and leaves the
      original in place: the pair then has two PENDING requests. */
  lemma EditAsNewDuplicatesPending(requests: RequestStore, id: DocId, freshId: DocId, role: Option<Role>)
    requires id in requests && requests[id].status == Pending && requests[id].id == id
    requires freshId !in requests
    ensures var after := SaveNew(requests, freshId, EditRole(requests[id], role));
      && id in after && freshId in after && id != freshId
      && after[id] == requests[id]
      && IsPendingFor(after[freshId], requests[id].userId, requests[id].organizationId)
      && !OnePendingPerPair(after)
  {
    var after := SaveNew(requests, freshId, EditRole(requests[id], role));
    assert after[id] == requests[id];
    assert after[freshId].status == Pending && after[freshId].userId == after[id].userId;
  }

  /** toResponseDTO: the request's own fields with the requester's view. */
  function ToResponse(r: EntryRequest, user: User): (v: EntryRequestResponse)
    ensures v.id == r.id && v.hubCode == r.hubCode && v.role == r.role && v.status == r.status
    ensures v.requestedAt == r.requestedAt
    ensures v.user == ToUserView(user) && v.user.faceUrl == SignedUrlOf(user.faceImageId)
  {
    EntryRequestResponse(r.id, r.hubCode, r.role, r.status, r.requestedAt, ToUserView(user))
  }

  /** Whether the requests come in strictly ascending id order, hence each at most once. */
  predicate AscendingIds(s: seq<EntryRequest>) {
    forall i, j :: 0 <= i < j < |s| ==> s[i].id < s[j].id
  }

  /** Whether the responses come in strictly ascending id order, hence each at most once. */
  predicate AscendingViewIds(r: seq<EntryRequestResponse>) {
    forall i, j :: 0 <= i < j < |r| ==> r[i].id < r[j].id
  }

  /** The responses for the requests whose user record exists; the others are dropped, and
      the kept ones stay in their order. */
  function ViewsWithUser(reqs: seq<EntryRequest>, users: map<UserId, User>): (r: seq<EntryRequestResponse>)
    ensures |r| <= |reqs|
    ensures forall v :: v in r ==> exists q :: q in reqs && q.userId in users && v == ToResponse(q, users[q.userId])
    ensures forall q :: q in reqs && q.userId in users ==> ToResponse(q, users[q.userId]) in r
    ensures AscendingIds(reqs) ==> AscendingViewIds(r)
    ensures AscendingIds(reqs) && reqs != [] ==> forall i :: 0 <= i < |r| ==> reqs[0].id <= r[i].id
  {
    if reqs == [] then []
    else
      var rest := ViewsWithUser(reqs[1..], users);
      assert forall q :: q in reqs[1..] ==> q in reqs;
      assert forall q :: q in reqs ==> q == reqs[0] || q in reqs[1..];
      assert AscendingIds(reqs) ==> AscendingIds(reqs[1..]) && (|reqs| > 1 ==> reqs[0].id < reqs[1..][0].id);
      if reqs[0].userId in users then [ToResponse(reqs[0], users[reqs[0].userId])] + rest else rest
  }

  /** Newest first: requestedAt never increases along the list. */
  predicate NewestFirst(s: seq<EntryRequest>) {
    forall i, j :: 0 <= i < j < |s| ==> s[i].requestedAt >= s[j].requestedAt
  }

  predicate DistinctIds(s: seq<EntryRequest>) {
    forall i, j :: 0 <= i < j < |s| ==> s[i].id != s[j].id
  }

  /** `x` placed into a newest-first list ahead of the first request that is not newer than it. */
  function InsertNewestFirst(x: EntryRequest, s: seq<EntryRequest>): (r: seq<EntryRequest>)
    requires NewestFirst(s)
    ensures NewestFirst(r)
    ensures multiset(r) == multiset(s) + multiset{x}
    ensures DistinctIds(s) && (forall i :: 0 <= i < |s| ==> s[i].id != x.id) ==> DistinctIds(r)
  {
    if s == [] then [x]
    else if x.requestedAt >= s[0].requestedAt then [x] + s
    else
      var rest := InsertNewestFirst(x, s[1..]);
      InsertBehindHead(x, s, rest);
      [s[0]] + rest
  }

  /** The step of the insertion that keeps the head: the head is newer than `x` and than
      the rest of the list, so it stays in front. */
  lemma InsertBehindHead(x: EntryRequest, s: seq<EntryRequest>, rest: seq<EntryRequest>)
    requires s != [] && NewestFirst(s) && x.requestedAt < s[0].requestedAt
    requires NewestFirst(rest) && multiset(rest) == multiset(s[1..]) + multiset{x}
    requires DistinctIds(s) && (forall i :: 0 <= i < |s| ==> s[i].id != x.id) ==> DistinctIds(rest)
    ensures multiset([s[0]] + rest) == multiset(s) + multiset{x}
    ensures NewestFirst([s[0]] + rest)
    ensures DistinctIds(s) && (forall i :: 0 <= i < |s| ==> s[i].id != x.id) ==> DistinctIds([s[0]] + rest)
  {
    assert s == [s[0]] + s[1..];
    var r := [s[0]] + rest;
    forall j | 0 < j < |r|
      ensures r[0].requestedAt >= r[j].requestedAt
      ensures DistinctIds(s) && (forall i :: 0 <= i < |s| ==> s[i].id != x.id) ==> r[0].id != r[j].id
    {
      assert r[j] == rest[j - 1];
      assert r[j] in multiset(rest);
      if r[j] != x {
        assert r[j] in multiset(s[1..]);
        var n :| 0 <= n < |s[1..]| && s[1..][n] == r[j];
        assert s[n + 1] == r[j];
      }
    }
    forall i, j | 0 < i < j < |r|
      ensures r[i].requestedAt >= r[j].requestedAt
      ensures DistinctIds(rest) ==> r[i].id != r[j].id
    {
      assert r[i] == rest[i - 1] && r[j] == rest[j - 1];
    }
  }

  /** The requests ordered newest first, as an orderBy on requestedAt descending returns them. */
  function SortNewestFirst(s: seq<EntryRequest>): (r: seq<EntryRequest>)
    ensures NewestFirst(r)
    ensures multiset(r) == multiset(s) && |r| == |s|
    ensures DistinctIds(s) ==> DistinctIds(r)
  {
    if s == [] then []
    else
      var rest := SortNewestFirst(s[1..]);
      HeadNotInSortedTail(s, rest);
      var r := InsertNewestFirst(s[0], rest);
      assert s == [s[0]] + s[1..];
      assert |multiset(r)| == |multiset(s)|;
      r
  }

  /** With distinct ids, the head's id is not among those of any reordering of the tail. */
  lemma HeadNotInSortedTail(s: seq<EntryRequest>, rest: seq<EntryRequest>)
    requires s != [] && multiset(rest) == multiset(s[1..])
    ensures DistinctIds(s) ==> DistinctIds(s[1..]) && forall i :: 0 <= i < |rest| ==> rest[i].id != s[0].id
  {
    if DistinctIds(s) {
      forall i | 0 <= i < |rest|
        ensures rest[i].id != s[0].id
      {
        assert rest[i] in multiset(s[1..]);
        var n :| 0 <= n < |s[1..]| && s[1..][n] == rest[i];
        assert s[n + 1] == rest[i];
      }
      forall i, j | 0 <= i < j < |s[1..]|
        ensures s[1..][i].id != s[1..][j].id
      {
        assert s[1..][i] == s[i + 1] && s[1..][j] == s[j + 1];
      }
    }
  }

  /** Two lists that are reorderings of each other hold the same requests. */
  lemma SameElements(s: seq<EntryRequest>, t: seq<EntryRequest>)
    requires multiset(s) == multiset(t)
    ensures forall q :: q in s <==> q in t
  {
    forall q
      ensures q in s <==> q in t
    {
      assert q in s <==> q in multiset(s);
      assert q in t <==> q in multiset(t);
    }
  }

  /** The responses of one user's requests, in the requests' order. */
  function ViewsOf(reqs: seq<EntryRequest>, user: User): (r: seq<EntryRequestResponse>)
    ensures |r| == |reqs| && forall i :: 0 <= i < |r| ==> r[i] == ToResponse(reqs[i], user)
    ensures forall q :: q in reqs ==> ToResponse(q, user) in r
    ensures forall v :: v in r ==> exists q :: q in reqs && v == ToResponse(q, user)
    ensures NewestFirst(reqs) ==> forall i, j :: 0 <= i < j < |r| ==> r[i].requestedAt >= r[j].requestedAt
    ensures DistinctIds(reqs) ==> forall i, j :: 0 <= i < j < |r| ==> r[i].id != r[j].id
  {
    Project(reqs, (q: EntryRequest) => ToResponse(q, user))
  }

  /** EntryRequestRepository.findByUserId: the user's requests, newest first, each once. */
  function FindByUserId(requests: RequestStore, bound: nat, userId: UserId): (r: seq<EntryRequest>)
    requires forall k :: k in requests ==> k < bound && requests[k].id == k
    ensures forall q :: q in r ==> q.userId == userId && q.id in requests && requests[q.id] == q
    ensures forall k :: k in requests && requests[k].userId == userId ==> requests[k] in r
    ensures NewestFirst(r) && DistinctIds(r)
  {
    var mine := Select(requests, bound, (q: EntryRequest) => q.userId == userId);
    assert DistinctIds(mine);
    var newest := SortNewestFirst(mine);
    SameElements(mine, newest);
    newest
  }

  /** The duplicate check of createRequest: whether the user appears among the organization's
      PENDING requests, as a query returns them, is whether the pair has a PENDING request. */
  lemma HasPendingIsQueryAny(requests: RequestStore, bound: nat, userId: UserId, organizationId: OrgId)
    requires forall k :: k in requests ==> k < bound
    ensures HasPending(requests, userId, organizationId) <==>
      exists q :: q in Select(requests, bound, (e: EntryRequest) => e.organizationId == organizationId && e.status == Pending) && q.userId == userId
  {
    var pending := Select(requests, bound, (e: EntryRequest) => e.organizationId == organizationId && e.status == Pending);
    if HasPending(requests, userId, organizationId) {
      var k :| k in requests && IsPendingFor(requests[k], userId, organizationId);
      assert requests[k] in pending;
    }
  }

  class EntryRequestService {
    var requests: RequestStore
    var nextId: DocId
    ghost var syncCalls: seq<SyncCall>
    const memberRepo: Repositories.MemberRepository
    const orgRepo: Repositories.OrganizationRepository
    const userRepo: Repositories.UserRepository

    /** Every stored request carries its own id, and ids are minted below nextId; the
        organization store's hub-code index covers every organization. */
    ghost predicate Valid()
      reads this, orgRepo
    {
      && (forall k :: k in requests ==> k < nextId && requests[k].id == k)
      && orgRepo.Valid()
    }

    constructor (memberRepo: Repositories.MemberRepository, orgRepo: Repositories.OrganizationRepository,
                 userRepo: Repositories.UserRepository)
      requires orgRepo.Valid()
      ensures Valid() && requests == map[] && syncCalls == []
      ensures this.memberRepo == memberRepo && this.orgRepo == orgRepo && this.userRepo == userRepo
    {
      this.memberRepo := memberRepo;
      this.orgRepo := orgRepo;
      this.userRepo := userRepo;
      requests := map[];
      nextId := 0;
      syncCalls := [];
    }

    method CreateRequest(userId: UserId, hubCode: HubCode, role: Role, now: Instant)
      returns (r: Result<EntryRequestResponse>)
      requires Valid()
      modifies this
      ensures Valid() && syncCalls == old(syncCalls)
      ensures var org := orgRepo.FindByHubCode(hubCode);
        if org.None? then r == Err(OrgNotFound) && unchanged(this)
        else if (userId, org.value.id) in memberRepo.members then r == Err(AlreadyMember) && unchanged(this)
        else if HasPending(old(requests), userId, org.value.id) then r == Err(DuplicatePending) && unchanged(this)
        else
          var saved := EntryRequest(old(nextId), userId, org.value.id, org.value.hubCode, role, Pending, now);
          && requests == SaveNew(old(requests), old(nextId), saved)
          && nextId == old(nextId) + 1
          && r == (if userId in userRepo.users then Ok(ToResponse(saved, userRepo.users[userId])) else Err(UserNotFound))
      ensures old(OnePendingPerPair(requests)) ==> OnePendingPerPair(requests)
    {
      var org := orgRepo.FindByHubCode(hubCode);
      if org.None? {
        return Err(OrgNotFound);
      }
      var organization := org.value;
      if memberRepo.FindByUserIdAndOrganizationId(userId, organization.id).Some? {
        return Err(AlreadyMember);
      }
      if HasPending(requests, userId, organization.id) {
        return Err(DuplicatePending);
      }
      var request := EntryRequest(nextId, userId, organization.id, organization.hubCode, role, Pending, now);
      SaveNewKeepsOnePending(requests, nextId, request);
      requests := SaveNew(requests, nextId, request);
      nextId := nextId + 1;
      var user := userRepo.FindById(userId);
      if user.None? {
        return Err(UserNotFound);
      }
      r := Ok(ToResponse(request, user.value));
    }

    method ApproveRequest(requestId: DocId) returns (r: Outcome)
      requires Valid()
      modifies this, memberRepo, orgRepo
      ensures Valid() && nextId == old(nextId) && orgRepo.byHubCode == old(orgRepo.byHubCode)
      ensures requestId !in old(requests) ==> r == Fail(NotFound) && unchanged(this, memberRepo, orgRepo)
      ensures requestId in old(requests) && old(requests)[requestId].status != Pending ==>
        r == Fail(AlreadyProcessed) && unchanged(this, memberRepo, orgRepo)
      ensures requestId in old(requests) && old(requests)[requestId].status == Pending ==>
        var req := old(requests)[requestId];
        && memberRepo.members == old(memberRepo.members)[(req.userId, req.organizationId) :=
             OrganizationMember(req.organizationId, req.userId, req.role, Active, None)]
        && (if req.organizationId !in old(orgRepo.orgs) then
              && r == Fail(OrgNotFound)
              && orgRepo.orgs == old(orgRepo.orgs) && requests == old(requests) && syncCalls == old(syncCalls)
            else
              && r == Done
              && orgRepo.orgs == old(orgRepo.orgs)[req.organizationId :=
                   Enrol(old(orgRepo.orgs)[req.organizationId], req.role, req.userId)]
              && requests == UpdateStatus(old(requests), requestId, Approved)
              && syncCalls == old(syncCalls) + [SyncNewMember(req.organizationId, req.userId)])
      ensures old(OnePendingPerPair(requests)) ==> OnePendingPerPair(requests)
    {
      if requestId !in requests {
        return Fail(NotFound);
      }
      var request := requests[requestId];
      if request.status != Pending {
        return Fail(AlreadyProcessed);
      }
      var newMember := OrganizationMember(request.organizationId, request.userId, request.role, Active, None);
      memberRepo.members := memberRepo.members[(newMember.userId, newMember.organizationId) := newMember];
      if newMember.organizationId !in orgRepo.orgs {
        return Fail(OrgNotFound);
      }
      orgRepo.orgs := orgRepo.orgs[newMember.organizationId :=
        Enrol(orgRepo.orgs[newMember.organizationId], newMember.role, newMember.userId)];
      ConcludeKeepsOnePending(requests, requestId, Approved);
      requests := UpdateStatus(requests, requestId, Approved);
      syncCalls := syncCalls + [SyncNewMember(newMember.organizationId, newMember.userId)];
      r := Done;
    }

    method RejectRequest(requestId: DocId) returns (r: Outcome)
      requires Valid()
      modifies this
      ensures Valid() && nextId == old(nextId) && syncCalls == old(syncCalls)
      ensures requestId !in old(requests) ==> r == Fail(NotFound) && requests == old(requests)
      ensures requestId in old(requests) && old(requests)[requestId].status != Pending ==>
        r == Fail(AlreadyProcessed) && requests == old(requests)
      ensures requestId in old(requests) && old(requests)[requestId].status == Pending ==>
        r == Done && requests == UpdateStatus(old(requests), requestId, Denied)
      ensures old(OnePendingPerPair(requests)) ==> OnePendingPerPair(requests)
    {
      if requestId !in requests {
        return Fail(NotFound);
      }
      if requests[requestId].status != Pending {
        return Fail(AlreadyProcessed);
      }
      ConcludeKeepsOnePending(requests, requestId, Denied);
      requests := UpdateStatus(requests, requestId, Denied);
      r := Done;
    }

    /** updateRequest as written: the edited request is saved through the repository's save,
        which mints a new id, so the original PENDING request stays beside its edited copy. */
    method UpdateRequest(id: DocId, role: Option<Role>) returns (r: Result<EntryRequestResponse>)
      requires Valid()
      modifies this
      ensures Valid() && syncCalls == old(syncCalls)
      ensures id !in old(requests) ==> r == Err(NotFound) && unchanged(this)
      ensures id in old(requests) && old(requests)[id].status != Pending ==> r == Err(AlreadyProcessed) && unchanged(this)
      ensures id in old(requests) && old(requests)[id].status == Pending ==>
        var saved := EditRole(old(requests)[id], role).(id := old(nextId));
        && requests == SaveNew(old(requests), old(nextId), EditRole(old(requests)[id], role))
        && nextId == old(nextId) + 1
        && r == (if saved.userId in userRepo.users then Ok(ToResponse(saved, userRepo.users[saved.userId])) else Err(UserNotFound))
        && !OnePendingPerPair(requests)
    {
      if id !in requests {
        return Err(NotFound);
      }
      var request := requests[id];
      if request.status != Pending {
        return Err(AlreadyProcessed);
      }
      var updated := EditRole(request, role);
      EditAsNewDuplicatesPending(requests, id, nextId, role);
      var saved := updated.(id := nextId);
      requests := SaveNew(requests, nextId, updated);
      nextId := nextId + 1;
      var user := userRepo.FindById(saved.userId);
      if user.None? {
        return Err(UserNotFound);
      }
      r := Ok(ToResponse(saved, user.value));
    }

    /** updateRequest as evidently intended: the edited request replaces the original under its id. */
    method UpdateRequestInPlace(id: DocId, role: Option<Role>) returns (r: Result<EntryRequestResponse>)
      requires Valid()
      modifies this
      ensures Valid() && nextId == old(nextId) && syncCalls == old(syncCalls)
      ensures id !in old(requests) ==> r == Err(NotFound) && requests == old(requests)
      ensures id in old(requests) && old(requests)[id].status != Pending ==> r == Err(AlreadyProcessed) && requests == old(requests)
      ensures id in old(requests) && old(requests)[id].status == Pending ==>
        var saved := EditRole(old(requests)[id], role);
        && requests == old(requests)[id := saved]
        && saved.status == Pending && saved.id == id
        && r == (if saved.userId in userRepo.users then Ok(ToResponse(saved, userRepo.users[saved.userId])) else Err(UserNotFound))
      ensures old(OnePendingPerPair(requests)) ==> OnePendingPerPair(requests)
    {
      if id !in requests {
        return Err(NotFound);
      }
      var request := requests[id];
      if request.status != Pending {
        return Err(AlreadyProcessed);
      }
      var saved := EditRole(request, role);
      EditInPlaceKeepsOnePending(requests, id, role);
      requests := requests[id := saved];
      var user := userRepo.FindById(saved.userId);
      if user.None? {
        return Err(UserNotFound);
      }
      r := Ok(ToResponse(saved, user.value));
    }

    method DeleteRequest(id: DocId) returns (r: Outcome)
      requires Valid()
      modifies this
      ensures Valid() && nextId == old(nextId) && syncCalls == old(syncCalls)
      ensures id !in old(requests) ==> r == Fail(NotFound) && requests == old(requests)
      ensures id in old(requests) ==> r == Done && requests == old(requests) - {id}
      ensures old(OnePendingPerPair(requests)) ==> OnePendingPerPair(requests)
    {
      if id !in requests {
        return Fail(NotFound);
      }
      requests := requests - {id};
      r := Done;
    }

    /** listPendingRequests: the PENDING requests of the hub's organization whose user exists. */
    function ListPendingRequests(hubCode: HubCode): (r: Result<seq<EntryRequestResponse>>)
      reads this, orgRepo, userRepo
      requires Valid()
      ensures orgRepo.FindByHubCode(hubCode).None? <==> r == Err(OrgNotFound)
      ensures r == Err(OrgNotFound) ==> forall k :: k in orgRepo.orgs ==> orgRepo.orgs[k].hubCode != hubCode
      ensures r.Ok? ==> var orgId := orgRepo.FindByHubCode(hubCode).value.id;
        && (forall v :: v in r.value ==>
              && v.id in requests && IsPendingFor(requests[v.id], requests[v.id].userId, orgId)
              && requests[v.id].userId in userRepo.users
              && v == ToResponse(requests[v.id], userRepo.users[requests[v.id].userId]))
        && (forall k ::
              k in requests && IsPendingFor(requests[k], requests[k].userId, orgId) && requests[k].userId in userRepo.users
              ==> ToResponse(requests[k], userRepo.users[requests[k].userId]) in r.value)
      ensures r.Ok? ==> AscendingViewIds(r.value)
    {
      var org := orgRepo.FindByHubCode(hubCode);
      if org.None? then Err(OrgNotFound)
      else
        var orgId := org.value.id;
        var pending := Select(requests, nextId, (q: EntryRequest) => q.organizationId == orgId && q.status == Pending);
        assert forall q :: q in pending ==> q.id in requests && requests[q.id] == q;
        assert AscendingIds(pending);
        Ok(ViewsWithUser(pending, userRepo.users))
    }

    /** listUserRequests: every request of the user, newest first, or an error when the user
        is unknown. */
    function ListUserRequests(userId: UserId): (r: Result<seq<EntryRequestResponse>>)
      reads this, orgRepo, userRepo
      requires Valid()
      ensures userId !in userRepo.users <==> r == Err(UserNotFound)
      ensures r.Ok? ==>
        && (forall v :: v in r.value ==>
              v.id in requests && requests[v.id].userId == userId && v == ToResponse(requests[v.id], userRepo.users[userId]))
        && (forall k :: k in requests && requests[k].userId == userId ==>
              ToResponse(requests[k], userRepo.users[userId]) in r.value)
        && (forall i, j :: 0 <= i < j < |r.value| ==> r.value[i].requestedAt >= r.value[j].requestedAt)
        && (forall i, j :: 0 <= i < j < |r.value| ==> r.value[i].id != r.value[j].id)
    {
      var mine := FindByUserId(requests, nextId, userId);
      var user := userRepo.FindById(userId);
      if user.None? then Err(UserNotFound)
      else
        Ok(ViewsOf(mine, user.value))
    }

    /** getRequestById: the response for a stored request whose user exists, or none. */
    function GetRequestById(id: DocId): (r: Option<EntryRequestResponse>)
      reads this, userRepo
      ensures r.Some? <==> id in requests && requests[id].userId in userRepo.users
      ensures r.Some? ==> r.value == ToResponse(requests[id], userRepo.users[requests[id].userId])
    {
      if id !in requests then None
      else
        var user := userRepo.FindById(requests[id].userId);
        if user.None? then None else Some(ToResponse(requests[id], user.value))
    }
  }
}
