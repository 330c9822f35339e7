/** Records, enumerations and outcome types shared by the three services. */
module Models {

  datatype Option<+T> = None | Some(value: T)

  type UserId = string
  type OrgId = string
  type HubCode = string
  /** The public id under which the image host keeps an uploaded photo. */
  type ImageId = string
  /** A point in time on the service clock, in milliseconds. */
  type Instant = int
  /** A document id minted by a store when a new record is saved. */
  type DocId = nat

  datatype Role = Member | Validator | Admin

  /** Only ACTIVE is distinguished by the services; every other status behaves alike. */
  datatype MemberStatus = Active | Inactive

  datatype RequestStatus = Pending | Approved | Denied

  datatype User = User(id: UserId, fullName: string, faceImageId: Option<ImageId>)

  /** The durable join between a user and an organization. */
  datatype OrganizationMember = OrganizationMember(
    organizationId: OrgId,
    userId: UserId,
    role: Role,
    status: MemberStatus,
    faceImageId: Option<ImageId>)

  /** An organization ("hub") with its three role-specific directory lists. */
  datatype Organization = Organization(
    id: OrgId,
    hubCode: HubCode,
    memberIds: set<UserId>,
    validatorIds: set<UserId>,
    adminIds: set<UserId>)

  /** The time-limited URL the image host signs for a public id. */
  datatype Url = SignedUrl(publicId: ImageId)

  /** The user part of a response: the account with its face photo as a signed URL. */
  datatype UserView = UserView(id: UserId, fullName: string, faceUrl: Option<Url>)

  /** A fire-and-forget notification to the directory-sync collaborator. */
  datatype SyncCall = SyncNewMember(organizationId: OrgId, userId: UserId)

  /** The failures the services raise, one per distinct guard. */
  datatype Error =
    | NotFound          // the request or code named by id is absent
    | OrgNotFound       // no organization for the hub code or id
    | UserNotFound      // the user record is absent
    | NotMember         // the caller has no membership in the organization
    | InactiveMember    // the caller's membership is not ACTIVE
    | MemberNotFound    // the requester's membership vanished before approval
    | AlreadyMember     // an entry request from someone who already is a member
    | DuplicatePending  // a second PENDING request for the same user and organization
    | AlreadyProcessed  // a transition attempted on a request that is not PENDING
    | Forbidden         // the caller's role does not allow the operation
    | UploadFailed      // the image host returned no public id

  datatype Result<+T> = Ok(value: T) | Err(error: Error)

  /** The outcome of an operation that returns nothing on success. */
  datatype Outcome = Done | Fail(error: Error)

  function SignedUrlOf(id: Option<ImageId>): (u: Option<Url>)
    ensures u.Some? <==> id.Some?
    ensures u.Some? ==> u.value.publicId == id.value
  {
    match id
    case None => None
    case Some(p) => Some(SignedUrl(p))
  }

  /** The account projection used in responses, with the account photo signed. */
  function ToUserView(user: User): (v: UserView)
    ensures v.id == user.id && v.fullName == user.fullName
    ensures v.faceUrl.Some? <==> user.faceImageId.Some?
    ensures v.faceUrl.Some? ==> v.faceUrl.value.publicId == user.faceImageId.value
  {
    UserView(user.id, user.fullName, SignedUrlOf(user.faceImageId))
  }
}
