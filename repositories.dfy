/** The stores the services share. Each is an object injected into the services that use
    it, so a write by one service is seen by the others. */
module Repositories {
  import opened Models

  /** The membership a (user, organization) pair holds in a membership store, if any. */
  function LookupMember(members: map<(UserId, OrgId), OrganizationMember>, userId: UserId, organizationId: OrgId): (m: Option<OrganizationMember>)
    ensures m.Some? <==> (userId, organizationId) in members
    ensures m.Some? ==> m.value == members[(userId, organizationId)]
  {
    if (userId, organizationId) in members then Some(members[(userId, organizationId)]) else None
  }

  /** Memberships, at most one per (user, organization). */
  class MemberRepository {
    var members: map<(UserId, OrgId), OrganizationMember>

    constructor (members: map<(UserId, OrgId), OrganizationMember>)
      ensures this.members == members
    {
      this.members := members;
    }

    function FindByUserIdAndOrganizationId(userId: UserId, organizationId: OrgId): Option<OrganizationMember>
      reads this
    {
      LookupMember(members, userId, organizationId)
    }
  }

  /** User accounts by id. */
  class UserRepository {
    var users: map<UserId, User>

    constructor (users: map<UserId, User>)
      ensures this.users == users
    {
      this.users := users;
    }

    function FindById(id: UserId): Option<User>
      reads this
    {
      if id in users then Some(users[id]) else None
    }
  }

  /** Organizations by id, with the hub-code index that resolves a shareable code to an id.
      The lookup is a query on the organization's hub code, so it only answers an organization
      that carries the code it was asked for. */
  class OrganizationRepository {
    var orgs: map<OrgId, Organization>
    var byHubCode: map<HubCode, OrgId>

    /** The index covers every stored organization: its hub code resolves to a stored
        organization carrying that code. */
    ghost predicate Valid()
      reads this
    {
      forall k :: k in orgs ==>
        && orgs[k].hubCode in byHubCode
        && byHubCode[orgs[k].hubCode] in orgs
        && orgs[byHubCode[orgs[k].hubCode]].hubCode == orgs[k].hubCode
    }

    constructor (orgs: map<OrgId, Organization>, byHubCode: map<HubCode, OrgId>)
      ensures this.orgs == orgs && this.byHubCode == byHubCode
    {
      this.orgs := orgs;
      this.byHubCode := byHubCode;
    }

    function FindByHubCode(hubCode: HubCode): (r: Option<Organization>)
      reads this
      ensures r.Some? ==> r.value.hubCode == hubCode && r.value in orgs.Values
      ensures Valid() && r.None? ==> forall k :: k in orgs ==> orgs[k].hubCode != hubCode
    {
      if hubCode in byHubCode && byHubCode[hubCode] in orgs && orgs[byHubCode[hubCode]].hubCode == hubCode then
        Some(orgs[byHubCode[hubCode]])
      else None
    }
  }
}
