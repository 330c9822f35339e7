/** The authorization-code engine: short-lived six-digit codes that prove membership of an
    organization, generated by a member and consumed once by a validator. */
module AuthCodes {
  import opened Models
  import opened Stores
  import Decimal
  import Repositories

  /** A code is usable for five minutes after it is generated. */
  const CodeLifetime: int := 5 * 60 * 1000
  const MinCodeValue: int := 100000
  const MaxCodeValue: int := 999999

  datatype AuthCode = AuthCode(
    id: DocId,
    code: string,
    userId: UserId,
    organizationId: OrgId,
    expirationTime: Instant,
    valid: bool)

  datatype GeneratedCodeResponse = GeneratedCodeResponse(code: string, expirationTime: Instant)

  /** The message a validation result carries. */
  datatype Message = CodeNotFound | CodeExpired | OwnerNotFound | AccessGranted

  datatype ValidationResponse = ValidationResponse(valid: bool, message: Message, member: Option<OrganizationMember>)

  /** The administrative view of a stored code. */
  datatype AuthCodeResponse = AuthCodeResponse(
    id: DocId,
    code: string,
    userId: UserId,
    organizationId: OrgId,
    expirationTime: Instant,
    valid: bool)

  /** An administrative override: each field that is present replaces the stored one. */
  datatype AuthCodeUpdate = AuthCodeUpdate(valid: Option<bool>, expirationTime: Option<Instant>)

  type CodeStore = map<DocId, AuthCode>

  predicate OwnedBy(c: AuthCode, userId: UserId, organizationId: OrgId) {
    c.userId == userId && c.organizationId == organizationId
  }

  /** The ids of the valid codes held for one (user, organization) pair. */
  function ValidCodesOf(codes: CodeStore, userId: UserId, organizationId: OrgId): set<DocId> {
    set k | k in codes && codes[k].valid && OwnedBy(codes[k], userId, organizationId)
  }

  /** The single-active-code invariant: no pair holds two valid codes. */
  ghost predicate AtMostOneValid(codes: CodeStore) {
    forall a, b ::
      a in codes && b in codes && codes[a].valid && codes[b].valid &&
      codes[a].userId == codes[b].userId && codes[a].organizationId == codes[b].organizationId
      ==> a == b
  }

  /** Only ACTIVE validators and admins of the code's organization may consume a code. */
  predicate MayValidate(validator: Option<OrganizationMember>)
    ensures MayValidate(validator) ==> validator.Some? && validator.value.role != Member
    ensures validator.Some? && validator.value.status != Active ==> !MayValidate(validator)
    ensures validator.Some? && validator.value.role != Member && validator.value.status == Active ==> MayValidate(validator)
  {
    && validator.Some?
    && (validator.value.role == Validator || validator.value.role == Admin)
    && validator.value.status == Active
  }

  /** The store after invalidatePreviousCodes(userId, organizationId). */
  function InvalidatePrevious(codes: CodeStore, userId: UserId, organizationId: OrgId): (r: CodeStore)
    ensures r.Keys == codes.Keys
    ensures ValidCodesOf(r, userId, organizationId) == {}
    ensures forall k :: k in codes && !OwnedBy(codes[k], userId, organizationId) ==> r[k] == codes[k]
    ensures forall k :: k in codes ==> r[k] == codes[k].(valid := r[k].valid) && (r[k].valid ==> codes[k].valid)
  {
    map k | k in codes :: if OwnedBy(codes[k], userId, organizationId) then codes[k].(valid := false) else codes[k]
  }

  /** The store after the previous codes of the pair are invalidated and a new valid code is saved. */
  function Issue(codes: CodeStore, id: DocId, value: string, userId: UserId, organizationId: OrgId, expirationTime: Instant): (r: CodeStore)
    ensures r.Keys == codes.Keys + {id}
    ensures r[id] == AuthCode(id, value, userId, organizationId, expirationTime, true)
    ensures forall k :: k in codes && k != id && !OwnedBy(codes[k], userId, organizationId) ==> r[k] == codes[k]
    ensures forall k :: k in codes && k != id && OwnedBy(codes[k], userId, organizationId) ==> r[k] == codes[k].(valid := false)
  {
    InvalidatePrevious(codes, userId, organizationId)[id := AuthCode(id, value, userId, organizationId, expirationTime, true)]
  }

  /** The store after invalidateCode(id). */
  function Invalidate(codes: CodeStore, id: DocId): (r: CodeStore)
    requires id in codes
    ensures r.Keys == codes.Keys && !r[id].valid
    ensures r[id] == codes[id].(valid := r[id].valid)
    ensures forall k :: k in codes && k != id ==> r[k] == codes[k]
  {
    codes[id := codes[id].(valid := false)]
  }

  /** A new code supersedes every earlier one of its pair and is then the pair's only valid code. */
  lemma IssueSupersedes(codes: CodeStore, id: DocId, value: string, userId: UserId, organizationId: OrgId, expirationTime: Instant)
    requires id !in codes
    ensures var r := Issue(codes, id, value, userId, organizationId, expirationTime);
      && ValidCodesOf(r, userId, organizationId) == {id}
      && (forall k :: k in codes && OwnedBy(codes[k], userId, organizationId) ==> !r[k].valid)
      && (AtMostOneValid(codes) ==> AtMostOneValid(r))
  {
  }

  /** Invalidating one code keeps the single-active-code invariant and revives nothing. */
  lemma InvalidateKeepsAtMostOneValid(codes: CodeStore, id: DocId)
    requires id in codes
    ensures AtMostOneValid(codes) ==> AtMostOneValid(Invalidate(codes, id))
    ensures forall k :: k in Invalidate(codes, id) && Invalidate(codes, id)[k].valid ==> k in codes && codes[k].valid
  {
  }

  /** The code with the override applied: present fields replace, absent ones are kept. */
  function ApplyUpdate(c: AuthCode, dto: AuthCodeUpdate): (r: AuthCode)
    ensures r.id == c.id && r.code == c.code && r.userId == c.userId && r.organizationId == c.organizationId
    ensures dto.valid.Some? ==> r.valid == dto.valid.value
    ensures dto.valid.None? ==> r.valid == c.valid
    ensures dto.expirationTime.Some? ==> r.expirationTime == dto.expirationTime.value
    ensures dto.expirationTime.None? ==> r.expirationTime == c.expirationTime
  {
    c.(valid := if dto.valid.Some? then dto.valid.value else c.valid,
       expirationTime := if dto.expirationTime.Some? then dto.expirationTime.value else c.expirationTime)
  }

  /** The override bypasses the invalidation paths: it can make a superseded code valid again
      beside the pair's current one. */
  lemma UpdateCanReviveSupersededCode()
    ensures var superseded := AuthCode(0, "123456", "u", "o", 0, false);
      var current := AuthCode(1, "654321", "u", "o", 0, true);
      var codes := map[0 := superseded, 1 := current];
      && AtMostOneValid(codes)
      && !AtMostOneValid(codes[0 := ApplyUpdate(superseded, AuthCodeUpdate(Some(true), None))])
  {
    var superseded := AuthCode(0, "123456", "u", "o", 0, false);
    var current := AuthCode(1, "654321", "u", "o", 0, true);
    var codes := map[0 := superseded, 1 := current];
    var revived := codes[0 := ApplyUpdate(superseded, AuthCodeUpdate(Some(true), None))];
    assert revived[0].valid && revived[1].valid;
  }

  /** toResponseDTO: the administrative view of a code, which loses none of its fields. */
  function ToResponse(c: AuthCode): (r: AuthCodeResponse)
    ensures AuthCode(r.id, r.code, r.userId, r.organizationId, r.expirationTime, r.valid) == c
  {
    AuthCodeResponse(c.id, c.code, c.userId, c.organizationId, c.expirationTime, c.valid)
  }

  class AuthCodeService {
    var codes: CodeStore
    var nextId: DocId
    const memberRepo: Repositories.MemberRepository

    /** Every stored code carries its own id, and ids are minted below nextId. */
    ghost predicate Valid()
      reads this
    {
      forall k :: k in codes ==> k < nextId && codes[k].id == k
    }

    constructor (memberRepo: Repositories.MemberRepository)
      ensures Valid() && codes == map[] && this.memberRepo == memberRepo
    {
      this.memberRepo := memberRepo;
      codes := map[];
      nextId := 0;
    }

    /** findValidByCode: some valid code with the given value, or none when there is none. */
    function FindValidByCode(code: string): (r: Option<DocId>)
      reads this
      requires Valid()
      ensures r.Some? ==> r.value in codes && codes[r.value].valid && codes[r.value].code == code
      ensures r.None? <==> forall k :: k in codes ==> !(codes[k].valid && codes[k].code == code)
    {
      FirstMatch(codes, nextId, (c: AuthCode) => c.valid && c.code == code)
    }

    method GenerateCode(userId: UserId, organizationId: OrgId, random: int, now: Instant)
      returns (r: Result<GeneratedCodeResponse>)
      requires Valid()
      requires MinCodeValue <= random <= MaxCodeValue
      modifies this
      ensures Valid()
      ensures var member := memberRepo.FindByUserIdAndOrganizationId(userId, organizationId);
        if member.None? then r == Err(NotMember) && unchanged(this)
        else if member.value.status != Active then r == Err(InactiveMember) && unchanged(this)
        else
          && r == Ok(GeneratedCodeResponse(Decimal.NatToDecimal(random), now + CodeLifetime))
          && codes == Issue(old(codes), old(nextId), r.value.code, userId, organizationId, now + CodeLifetime)
          && nextId == old(nextId) + 1
      ensures r.Ok? ==> ValidCodesOf(codes, userId, organizationId) == {old(nextId)}
      ensures r.Ok? ==> |r.value.code| == 6 && Decimal.AllDigits(r.value.code) && Decimal.DecimalValue(r.value.code) == random
      ensures old(AtMostOneValid(codes)) ==> AtMostOneValid(codes)
    {
      var member := memberRepo.FindByUserIdAndOrganizationId(userId, organizationId);
      if member.None? {
        return Err(NotMember);
      }
      if member.value.status != Active {
        return Err(InactiveMember);
      }
      IssueSupersedes(codes, nextId, Decimal.NatToDecimal(random), userId, organizationId, now + CodeLifetime);
      codes := InvalidatePrevious(codes, userId, organizationId);
      var code := Decimal.NatToDecimal(random);
      var expirationTime := now + CodeLifetime;
      codes := codes[nextId := AuthCode(nextId, code, userId, organizationId, expirationTime, true)];
      nextId := nextId + 1;
      Decimal.SixDigits(random);
      Decimal.DecimalRoundTrip(random);
      r := Ok(GeneratedCodeResponse(code, expirationTime));
    }

    method ValidateCode(code: string, validatorUserId: UserId, now: Instant) returns (r: Result<ValidationResponse>)
      requires Valid()
      modifies this
      ensures Valid() && nextId == old(nextId)
      ensures old(FindValidByCode(code)).None? ==>
        r == Ok(ValidationResponse(false, CodeNotFound, None)) && codes == old(codes)
      ensures old(FindValidByCode(code)).Some? ==>
        var k := old(FindValidByCode(code)).value;
        var c := old(codes)[k];
        if now > c.expirationTime then
          r == Ok(ValidationResponse(false, CodeExpired, None)) && codes == Invalidate(old(codes), k)
        else if !MayValidate(memberRepo.FindByUserIdAndOrganizationId(validatorUserId, c.organizationId)) then
          r == Err(Forbidden) && codes == old(codes)
        else
          var owner := memberRepo.FindByUserIdAndOrganizationId(c.userId, c.organizationId);
          && codes == Invalidate(old(codes), k)
          && r == Ok(if owner.None? then ValidationResponse(false, OwnerNotFound, None)
                     else ValidationResponse(true, AccessGranted, owner))
      ensures r.Ok? && old(FindValidByCode(code)).Some? ==>
        var k := old(FindValidByCode(code)).value;
        k in codes && !codes[k].valid && FindValidByCode(code) != Some(k)
      ensures r.Ok? && r.value.valid ==> r.value.member.Some?
      ensures forall k :: k in codes && codes[k].valid ==> k in old(codes) && old(codes)[k].valid
      ensures old(AtMostOneValid(codes)) ==> AtMostOneValid(codes)
    {
      var found := FindValidByCode(code);
      if found.None? {
        return Ok(ValidationResponse(false, CodeNotFound, None));
      }
      var k := found.value;
      var authCode := codes[k];
      if now > authCode.expirationTime {
        InvalidateKeepsAtMostOneValid(codes, k);
        codes := Invalidate(codes, k);
        return Ok(ValidationResponse(false, CodeExpired, None));
      }
      var validator := memberRepo.FindByUserIdAndOrganizationId(validatorUserId, authCode.organizationId);
      if !MayValidate(validator) {
        return Err(Forbidden);
      }
      InvalidateKeepsAtMostOneValid(codes, k);
      codes := Invalidate(codes, k);
      var owner := memberRepo.FindByUserIdAndOrganizationId(authCode.userId, authCode.organizationId);
      if owner.None? {
        return Ok(ValidationResponse(false, OwnerNotFound, None));
      }
      r := Ok(ValidationResponse(true, AccessGranted, owner));
    }

    /** listAllCodes: the administrative view of every stored code. */
    function ListAllCodes(): (r: seq<AuthCodeResponse>)
      reads this
      requires Valid()
      ensures forall i :: 0 <= i < |r| ==> r[i].id in codes && r[i] == ToResponse(codes[r[i].id])
      ensures forall k :: k in codes ==> ToResponse(codes[k]) in r
      ensures forall i, j :: 0 <= i < j < |r| ==> r[i].id < r[j].id
    {
      var all := Select(codes, nextId, (c: AuthCode) => true);
      assert forall c :: c in all ==> c.id in codes && codes[c.id] == c;
      Project(all, ToResponse)
    }

    /** getCodeById: the view of one code, or none for an unknown id. */
    function GetCodeById(id: DocId): (r: Option<AuthCodeResponse>)
      reads this
      ensures r.Some? <==> id in codes
      ensures r.Some? ==> r.value == ToResponse(codes[id])
    {
      if id in codes then Some(ToResponse(codes[id])) else None
    }

    /** The single lookup and the listing agree: a code is found by id exactly when it is listed. */
    lemma GetCodeByIdAgreesWithList(id: DocId)
      requires Valid()
      ensures GetCodeById(id).Some? <==> id in codes
      ensures GetCodeById(id).Some? ==> GetCodeById(id).value in ListAllCodes()
      ensures forall v :: v in ListAllCodes() ==> GetCodeById(v.id) == Some(v)
    {
    }

    method UpdateCode(id: DocId, dto: AuthCodeUpdate) returns (r: Result<AuthCodeResponse>)
      requires Valid()
      modifies this
      ensures Valid() && nextId == old(nextId)
      ensures id !in old(codes) ==> r == Err(NotFound) && codes == old(codes)
      ensures id in old(codes) ==>
        && codes == old(codes)[id := ApplyUpdate(old(codes)[id], dto)]
        && r == Ok(ToResponse(codes[id]))
    {
      if id !in codes {
        return Err(NotFound);
      }
      var updated := ApplyUpdate(codes[id], dto);
      codes := codes[id := updated];
      r := Ok(ToResponse(updated));
    }

    method DeleteCode(id: DocId) returns (r: Outcome)
      requires Valid()
      modifies this
      ensures Valid() && nextId == old(nextId)
      ensures id !in old(codes) ==> r == Fail(NotFound) && codes == old(codes)
      ensures id in old(codes) ==> r == Done && codes == old(codes) - {id}
      ensures old(AtMostOneValid(codes)) ==> AtMostOneValid(codes)
    {
      if id !in codes {
        return Fail(NotFound);
      }
      codes := codes - {id};
      r := Done;
    }

    method InvalidateCodeManual(id: DocId) returns (r: Outcome)
      requires Valid()
      modifies this
      ensures Valid() && nextId == old(nextId)
      ensures id !in old(codes) ==> r == Fail(NotFound) && codes == old(codes)
      ensures id in old(codes) ==> r == Done && codes == Invalidate(old(codes), id)
      ensures old(AtMostOneValid(codes)) ==> AtMostOneValid(codes)
    {
      if id !in codes {
        return Fail(NotFound);
      }
      InvalidateKeepsAtMostOneValid(codes, id);
      codes := Invalidate(codes, id);
      r := Done;
    }
  }
}
