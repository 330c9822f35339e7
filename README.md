# CampusFace service core in Dafny

CampusFace is a campus access-control backend. Users belong to organizations ("hubs"); each membership has a role (MEMBER, VALIDATOR, ADMIN), a status, and optionally its own face photo. This project models three services of that backend, and proves properties about them:

- **Authentication codes.** A member generates a short-lived 6-digit code, and every earlier code of the same (user, organization) pair becomes invalid. A VALIDATOR or ADMIN of that organization consumes the code at the gate. Code administration (list, read, override, delete, invalidate) is meant for administrators, but the service takes no caller for it.
- **Entry requests.** A user asks to join an organization, using its hub code and a role. Approving the request, an administrator's job, creates an ACTIVE membership, adds the user to the organization's list for that role, and triggers a sync. A request can also be rejected, edited (meant for its owner) or deleted. None of these operations takes the caller, so none checks a role.
- **Face change requests.** A member proposes a new face photo, which is uploaded to the image host. An ADMIN of the organization approves it onto the membership or rejects it. The proposed photo is deleted from the host when the request is rejected, when it is replaced by a re-upload, and when a PENDING request is deleted.

Each service is a `class` whose fields are the in-memory collections it updates. A collection is a `map` from store-minted ids to records, plus a `nextId` counter that mints them. The shared stores are objects injected into the services, so a write by one service is visible to the others:

- memberships, keyed by (user, organization);
- users;
- organizations, with their hub-code index.

Exceptions become the `Error` constructors of a `Result` or an `Outcome`. The state that an exception path has already written stays written, as it does in the source. Side effects the services trigger on other systems are recorded in ghost logs:

- `syncCalls`: calls to the sync service;
- `hostCalls`: the image host's uploads and deletes.

The following are parameters rather than modelled behaviour:

- the clock: `now`, in milliseconds;
- the random 6-digit number;
- the public id the image host answers to an upload, where `None` is a failed upload.

Modules:

- `Models`: the shared entities, the errors, and the user view with its signed photo URL.
- `Decimal`: the decimal rendering of the random code, with its round trip.
- `Stores`: the query shapes over a collection (filter, first match, projection).
- `Repositories`: the shared stores.
- `AuthCodes`, `EntryRequests`, `ChangeRequests`: the three services.

## Model

Source paths are relative to the repository root.

| member | source | states |
|---|---|---|
| Decimal.NatToDecimal | src/main/kotlin/br/com/fatec/campusface/service/AuthCodeService.kt:32 | the digit string of a number is non-empty, all digits, and has no leading zero |
| Decimal.DecimalRoundTrip | src/main/kotlin/br/com/fatec/campusface/service/AuthCodeService.kt:32 | reading back the digit string of n gives n |
| Decimal.DecimalInjective | src/main/kotlin/br/com/fatec/campusface/service/AuthCodeService.kt:32 | different numbers render to different codes |
| Decimal.DecimalLength | src/main/kotlin/br/com/fatec/campusface/service/AuthCodeService.kt:32 | a number in [10^k, 10^(k+1)) renders to k+1 digits |
| Decimal.SixDigits | src/main/kotlin/br/com/fatec/campusface/service/AuthCodeService.kt:32 | every number drawn from 100000..999999 renders to exactly six digits |
| Stores.Select | src/main/kotlin/br/com/fatec/campusface/repository/EntryRequestRepository.kt:29-37 | an equality-filter query returns exactly the stored records that match, one per matching id, in the ascending order of those ids |
| Stores.MatchingIds | src/main/kotlin/br/com/fatec/campusface/repository/EntryRequestRepository.kt:29-37 | the ids a query matches are all stored, below the bound and matching; they come in strictly ascending order, so each appears once; and every matching stored id is among them |
| Stores.Project | src/main/kotlin/br/com/fatec/campusface/service/AuthCodeService.kt:79-81 | mapping a query result keeps its length and order, and converts every element |
| Stores.FirstMatch | src/main/kotlin/br/com/fatec/campusface/service/AuthCodeService.kt:49-50 | a single-result lookup returns a stored match, and returns nothing only when no record matches |
| Models.SignedUrlOf | src/main/kotlin/br/com/fatec/campusface/service/EntryRequestService.kt:158 | a photo URL exists exactly when a photo id exists, and it signs that id |
| Models.ToUserView | src/main/kotlin/br/com/fatec/campusface/service/EntryRequestService.kt:158-159 | the user view carries the user's id and name, and has a photo URL exactly when the account has a photo, signing that photo's id |
| Repositories.LookupMember | src/main/kotlin/br/com/fatec/campusface/service/AuthCodeService.kt:23 | a membership is found exactly when the store holds one for the (user, organization) pair, and it is that membership |
| Repositories.OrganizationRepository.FindByHubCode | src/main/kotlin/br/com/fatec/campusface/service/EntryRequestService.kt:31-32 | an organization found for a hub code is a stored organization that carries that hub code; when the hub-code index covers the store, a miss means no stored organization carries the code |
| AuthCodes.InvalidatePrevious | src/main/kotlin/br/com/fatec/campusface/service/AuthCodeService.kt:30 | after invalidating the pair's codes, that pair has no valid code; other pairs' codes are untouched; no code is removed, no code becomes valid, and no other field changes |
| AuthCodes.Issue | src/main/kotlin/br/com/fatec/campusface/service/AuthCodeService.kt:30-42 | after an issue, the store holds the new valid code under its fresh id with the drawn value, the owner and the expiry; the pair's earlier codes are kept but invalid; every other code is unchanged |
| AuthCodes.Invalidate | src/main/kotlin/br/com/fatec/campusface/service/AuthCodeService.kt:53 | invalidateCode: the code stays stored but becomes invalid, its other fields are kept, and every other code is unchanged |
| AuthCodes.MayValidate | src/main/kotlin/br/com/fatec/campusface/service/AuthCodeService.kt:59-61 | a plain MEMBER never validates, a non-ACTIVE membership never validates, and an ACTIVE VALIDATOR or ADMIN always may |
| AuthCodes.IssueSupersedes | src/main/kotlin/br/com/fatec/campusface/service/AuthCodeService.kt:30-42 | after a new code is issued it is the pair's only valid code, every earlier code of the pair is invalid, and at most one valid code per pair is preserved |
| AuthCodes.InvalidateKeepsAtMostOneValid | src/main/kotlin/br/com/fatec/campusface/service/AuthCodeService.kt:53 | invalidating a code revives nothing and preserves at most one valid code per pair |
| AuthCodes.ApplyUpdate | src/main/kotlin/br/com/fatec/campusface/service/AuthCodeService.kt:93-96 | the override replaces validity and expiry exactly when they are given, and keeps id, code value and owner |
| AuthCodes.UpdateCanReviveSupersededCode | src/main/kotlin/br/com/fatec/campusface/service/AuthCodeService.kt:89-100 | a concrete store where the override makes a superseded code valid again beside the current one, breaking the one-valid-code-per-pair invariant |
| AuthCodes.ToResponse | src/main/kotlin/br/com/fatec/campusface/service/AuthCodeService.kt:117-124 | toResponseDTO loses no field: the code can be rebuilt from its response |
| AuthCodes.AuthCodeService.FindValidByCode | src/main/kotlin/br/com/fatec/campusface/service/AuthCodeService.kt:49-50 | a found code is stored, valid and carries the given value; nothing is found exactly when no valid code carries it |
| AuthCodes.AuthCodeService.GenerateCode | src/main/kotlin/br/com/fatec/campusface/service/AuthCodeService.kt:22-45 | non-members and non-ACTIVE members are refused with the store unchanged; otherwise the pair's older codes are invalidated and a new valid code is saved, expiring five minutes after now; that code is the pair's only valid one and is six decimal digits reading back as the drawn number; at most one valid code per pair is preserved |
| AuthCodes.AuthCodeService.ValidateCode | src/main/kotlin/br/com/fatec/campusface/service/AuthCodeService.kt:48-77 | an unknown or expired code is rejected, and an expired one is invalidated; a validator who is missing, has the wrong role or is not ACTIVE is refused with the store unchanged; otherwise the code is consumed and the owner's membership is returned, or a not-found message when it is missing; a consumed code cannot be found again; nothing is revived |
| AuthCodes.AuthCodeService.ListAllCodes | src/main/kotlin/br/com/fatec/campusface/service/AuthCodeService.kt:79-81 | every stored code is listed; every listed entry equals the response of the stored code with its id; the entries come in strictly ascending id order, so each code is listed once |
| AuthCodes.AuthCodeService.GetCodeById | src/main/kotlin/br/com/fatec/campusface/service/AuthCodeService.kt:83-86 | a response exists exactly when the id is stored, and it is that code's response |
| AuthCodes.AuthCodeService.GetCodeByIdAgreesWithList | src/main/kotlin/br/com/fatec/campusface/service/AuthCodeService.kt:83-86 | the single-code read finds exactly the stored codes, and its answer is also in the full list |
| AuthCodes.AuthCodeService.UpdateCode | src/main/kotlin/br/com/fatec/campusface/service/AuthCodeService.kt:89-100 | a missing id is NotFound with nothing changed; otherwise only that code is replaced by the override, and the overridden code is returned |
| AuthCodes.AuthCodeService.DeleteCode | src/main/kotlin/br/com/fatec/campusface/service/AuthCodeService.kt:102-107 | a missing id is NotFound with nothing changed; otherwise exactly that code is removed |
| AuthCodes.AuthCodeService.InvalidateCodeManual | src/main/kotlin/br/com/fatec/campusface/service/AuthCodeService.kt:110-115 | a missing id is NotFound with nothing changed; otherwise only that code becomes invalid, and at most one valid code per pair is preserved |
| EntryRequests.EditRole | src/main/kotlin/br/com/fatec/campusface/service/EntryRequestService.kt:127 | a given role replaces the request's role, no role keeps it, and every other field is kept |
| EntryRequests.Enrol | src/main/kotlin/br/com/fatec/campusface/service/EntryRequestService.kt:100-104 | approving with a role adds the user to that role's list only; the other lists, the id and the hub code are unchanged |
| EntryRequests.SaveNew | src/main/kotlin/br/com/fatec/campusface/repository/EntryRequestRepository.kt:17-22 | save: the store gains exactly the fresh id, holding a copy of the record under that id, and every stored request is kept |
| EntryRequests.UpdateStatus | src/main/kotlin/br/com/fatec/campusface/repository/EntryRequestRepository.kt:39-41 | updateStatus: only the status field of that document changes, to the given status; no request is added or removed |
| EntryRequests.HasPendingIsQueryAny | src/main/kotlin/br/com/fatec/campusface/service/EntryRequestService.kt:39-42 | the duplicate check over the organization's PENDING query finds the user exactly when the pair has a PENDING request |
| EntryRequests.SaveNewKeepsOnePending | src/main/kotlin/br/com/fatec/campusface/service/EntryRequestService.kt:39-53 | saving a new PENDING request for a pair with none preserves one PENDING request per pair |
| EntryRequests.ConcludeKeepsOnePending | src/main/kotlin/br/com/fatec/campusface/repository/EntryRequestRepository.kt:39-41 | moving a request out of PENDING preserves one PENDING request per pair |
| EntryRequests.EditInPlaceKeepsOnePending | src/main/kotlin/br/com/fatec/campusface/service/EntryRequestService.kt:118-135 | editing the role under the request's own id preserves one PENDING request per pair |
| EntryRequests.EditAsNewDuplicatesPending | src/main/kotlin/br/com/fatec/campusface/repository/EntryRequestRepository.kt:17-22 | saving an edited PENDING request under a freshly minted id leaves the original in place and adds a second PENDING request for the same pair |
| EntryRequests.ToResponse | src/main/kotlin/br/com/fatec/campusface/service/EntryRequestService.kt:157-169 | the response carries the request's id, hub code, role, status and request time, and the requester's view with the signed account photo |
| EntryRequests.ViewsWithUser | src/main/kotlin/br/com/fatec/campusface/service/EntryRequestService.kt:65-68 | the responses are exactly the requests whose user exists, each with that user's view; the others are dropped; input in ascending id order stays in ascending id order |
| EntryRequests.InsertNewestFirst | src/main/kotlin/br/com/fatec/campusface/repository/EntryRequestRepository.kt:50 | inserting into a newest-first list keeps it newest first, adds exactly the inserted request, and keeps ids distinct when the new id is fresh |
| EntryRequests.SortNewestFirst | src/main/kotlin/br/com/fatec/campusface/repository/EntryRequestRepository.kt:50 | the sorted list is newest first, is a reordering of its input, and keeps the input's ids distinct |
| EntryRequests.FindByUserId | src/main/kotlin/br/com/fatec/campusface/repository/EntryRequestRepository.kt:47-55 | findByUserId returns exactly the user's stored requests, each once, in descending requestedAt order |
| EntryRequests.ViewsOf | src/main/kotlin/br/com/fatec/campusface/service/EntryRequestService.kt:78-80 | the responses map the requests one to one, in their order, so newest-first order and distinct ids carry over |
| EntryRequests.EntryRequestService.CreateRequest | src/main/kotlin/br/com/fatec/campusface/service/EntryRequestService.kt:29-57 | an unknown hub, an existing membership or an existing PENDING request is refused with the store unchanged; otherwise a PENDING request is saved under a new id, and then a missing user yields UserNotFound although the request stays saved; one PENDING request per pair is preserved |
| EntryRequests.EntryRequestService.ApproveRequest | src/main/kotlin/br/com/fatec/campusface/service/EntryRequestService.kt:83-109 | a missing request is NotFound and a concluded one AlreadyProcessed, both with nothing changed; otherwise an ACTIVE membership with the requested role and no photo is saved; a missing organization then fails with only that write done; else the user joins the role's list, the request becomes APPROVED, and a sync call is made; one PENDING request per pair is preserved |
| EntryRequests.EntryRequestService.RejectRequest | src/main/kotlin/br/com/fatec/campusface/service/EntryRequestService.kt:145-154 | a missing request is NotFound and a concluded one is refused, both with nothing changed; otherwise only its status becomes DENIED |
| EntryRequests.EntryRequestService.UpdateRequest | src/main/kotlin/br/com/fatec/campusface/service/EntryRequestService.kt:118-135 | as written: a missing or concluded request is refused with nothing changed; otherwise the edited copy is saved under a new id beside the original, so the pair then has two PENDING requests |
| EntryRequests.EntryRequestService.UpdateRequestInPlace | src/main/kotlin/br/com/fatec/campusface/service/EntryRequestService.kt:118-135 | corrected: the same refusals; otherwise the edited request replaces the original under its own id, and one PENDING request per pair is preserved |
| EntryRequests.EntryRequestService.DeleteRequest | src/main/kotlin/br/com/fatec/campusface/service/EntryRequestService.kt:137-143 | a missing request is NotFound with nothing changed; otherwise exactly it is removed, whatever its status |
| EntryRequests.EntryRequestService.ListPendingRequests | src/main/kotlin/br/com/fatec/campusface/service/EntryRequestService.kt:59-69 | an unknown hub is OrgNotFound, and then no stored organization carries the hub code; otherwise the list holds exactly the organization's PENDING requests whose user exists, each with its user's view, each once, in ascending id order |
| EntryRequests.EntryRequestService.ListUserRequests | src/main/kotlin/br/com/fatec/campusface/service/EntryRequestService.kt:72-81 | an unknown user is UserNotFound; otherwise the list holds exactly that user's requests, each with the user's view, each once, newest first |
| EntryRequests.EntryRequestService.GetRequestById | src/main/kotlin/br/com/fatec/campusface/service/EntryRequestService.kt:111-115 | a response exists exactly when the request and its user both exist, and it is the request's response with that user |
| ChangeRequests.CurrentFaceId | src/main/kotlin/br/com/fatec/campusface/service/ChangeRequestService.kt:65 | the membership's own photo is in force when it is present and not blank; otherwise the account photo is |
| ChangeRequests.ApprovedFaceIsCurrent | src/main/kotlin/br/com/fatec/campusface/service/ChangeRequestService.kt:191-203 | once approval writes a non-blank photo onto the membership, that photo is in force and its signed URL is shown |
| ChangeRequests.BlankFaceFallsBack | src/main/kotlin/br/com/fatec/campusface/service/ChangeRequestService.kt:114 | a blank photo on the membership falls back to the account photo |
| ChangeRequests.ToResponse | src/main/kotlin/br/com/fatec/campusface/service/ChangeRequestService.kt:65-77 | the response carries the request's id, status, request time and organization, the requester's name and the proposed photo's URL; the current-photo URL signs the membership's own photo when it has a non-blank one, and otherwise signs the account photo, if any |
| ChangeRequests.SaveInPlaceKeepsOnePending | src/main/kotlin/br/com/fatec/campusface/service/ChangeRequestService.kt:171-176 | re-saving a request under its own id, without moving it into PENDING or changing its pair, preserves one PENDING request per pair |
| ChangeRequests.SaveNewKeepsOnePending | src/main/kotlin/br/com/fatec/campusface/service/ChangeRequestService.kt:32-54 | saving a new request for a pair with no PENDING request preserves one PENDING request per pair |
| ChangeRequests.HasPendingIsQueryAny | src/main/kotlin/br/com/fatec/campusface/service/ChangeRequestService.kt:32-36 | the duplicate check over the organization's PENDING query finds the user exactly when the pair has a PENDING request |
| ChangeRequests.PendingViews | src/main/kotlin/br/com/fatec/campusface/service/ChangeRequestService.kt:60-81 | the responses are exactly the requests whose user and membership both exist, each with the membership's current photo; the others are dropped; input in ascending id order stays in ascending id order |
| ChangeRequests.ChangeRequestService.CreateRequest | src/main/kotlin/br/com/fatec/campusface/service/ChangeRequestService.kt:26-55 | a non-member, or a member with a PENDING request in the organization, is refused with nothing changed; otherwise one upload is made; a failed upload stores nothing; a successful one saves and returns a PENDING request for the uploaded photo; one PENDING request per pair is preserved |
| ChangeRequests.ChangeRequestService.ReviewRequest | src/main/kotlin/br/com/fatec/campusface/service/ChangeRequestService.kt:84-106 | a missing request, a concluded request, and a reviewer who is not an ADMIN membership of the request's organization are refused with nothing changed; otherwise approval or rejection happens as in Approve and Reject |
| ChangeRequests.ChangeRequestService.Approve | src/main/kotlin/br/com/fatec/campusface/service/ChangeRequestService.kt:191-203 | a missing requester membership is MemberNotFound with nothing changed; otherwise the membership's photo becomes the proposed one, the request becomes APPROVED with its update time, a sync call is made, and nothing is deleted |
| ChangeRequests.ChangeRequestService.Reject | src/main/kotlin/br/com/fatec/campusface/service/ChangeRequestService.kt:206-214 | exactly one delete, of the proposed photo; the request becomes DENIED with its update time; memberships are untouched |
| ChangeRequests.ChangeRequestService.UpdateRequest | src/main/kotlin/br/com/fatec/campusface/service/ChangeRequestService.kt:154-177 | a missing or concluded request is refused with nothing changed; otherwise the old proposed photo is deleted before the new upload; a failed upload leaves the request unchanged; a successful one replaces the proposed photo and update time, and the request stays PENDING |
| ChangeRequests.ChangeRequestService.DeleteRequest | src/main/kotlin/br/com/fatec/campusface/service/ChangeRequestService.kt:179-189 | a missing request is NotFound with nothing changed; otherwise it is removed, and its proposed photo is deleted exactly when it was PENDING |
| ChangeRequests.ChangeRequestService.ListPendingRequests | src/main/kotlin/br/com/fatec/campusface/service/ChangeRequestService.kt:57-82 | the list holds exactly the organization's PENDING requests whose user and membership exist, each with the current and proposed photo URLs, each once, in ascending id order |
| ChangeRequests.ChangeRequestService.GetRequestById | src/main/kotlin/br/com/fatec/campusface/service/ChangeRequestService.kt:108-127 | a response exists exactly when the request and its user exist, and it is the request's full response with the requester's membership in that organization if there is one, else the account photo |
| ChangeRequests.ChangeRequestService.ListUserRequests | src/main/kotlin/br/com/fatec/campusface/service/ChangeRequestService.kt:129-149 | an unknown user gets an empty list; otherwise the list holds exactly that user's requests, each with the photo in force for its organization, each once |

## Left out

- The repositories for authentication codes and memberships, the change-request repository, and the organization and user repositories are not part of this model. Their behaviour is assumed as follows:
  - a new record gets a fresh id;
  - `save` of a change request or an authentication code replaces the record with the same id;
  - `findValidByCode` returns one valid code with the given value;
  - `updateFaceImageId` rewrites one membership's photo;
  - `add*ToOrganization` adds to a set, like Firestore's array union.
- A missing organization in `add*ToOrganization` is modelled as a failure that leaves the new membership saved.
- Memberships are keyed by (user, organization), so the membership document's own id is not modelled. Saving a membership for a pair that already has one replaces it.
- Query results of the repositories that are not part of this model come back in ascending id order. Firestore's own order for those queries is not modelled.
- EntryRequests.FindByUserId: the order among requests with the same `requestedAt` is not stated.
- ChangeRequests.ChangeRequestService.ListUserRequests: the order of the change-request repository's `findByUserId` is not modelled; the model returns ascending id order.
- ChangeRequests.ChangeRequestService.Approve: the membership's previous photo, often an earlier approved proposal, is overwritten and never deleted from the host, so it stays there as an orphan. The model records this by logging no host call, as the code does.
- ChangeRequests.ChangeRequestService.UpdateRequest: when the re-upload fails, the old proposed photo is already deleted but the request still points at it. The contract states exactly this.
- The stores are not constrained to agree with their records: an organization's key need not equal its id, and a membership's key need not equal its (user, organization). The hub-code index is constrained: under `OrganizationRepository.Valid`, which the entry-request service keeps, every stored organization's hub code resolves to a stored organization carrying it.
- AuthCodes.AuthCodeService.FindValidByCode: picks the lowest-id match. The service contracts hold whichever valid match a lookup returns.
- AuthCodes.AuthCodeService.ValidateCode: returns the target's membership record, not the member DTO that `getMemberById` builds.
- The clock, the random number and the image host's answers are parameters. Expiry is "now is after the expiration time", in milliseconds.
- Image processing, the upload's byte content and URL signing are not modelled. A signed URL is modelled as the public id it signs.
- The sync service is a ghost log of calls, and so are the image host's uploads and deletes. Their effects are not modelled.
- Controllers, HTTP mapping, authentication of the caller and debug logging are not modelled.
- Concurrent requests are not modelled: the check-then-save races between two simultaneous creations are outside a sequential model.
- ChangeRequests.IsBlank: treats only the ASCII whitespace characters as blank: tab, line feed, vertical tab, form feed, carriage return, the separators U+001C to U+001F, and space. Kotlin's `isBlank` also treats the non-ASCII Unicode space, line and paragraph separators as blank.
- Checks the code does not make, modelled as written:
  - entry-request listing, approval, rejection, editing and deletion, the change-request pending list, and the code administration operations take no caller and check no role; the request controllers mark these checks as still to be written;
  - `reviewRequest` checks the reviewer's role, not that the reviewer's membership is ACTIVE;
  - the change-request `createRequest` checks that a membership exists, not that it is ACTIVE;
  - the change-request reads return nothing, not an error, when the user is missing.

## Findings

| source | as written | input that shows it | evidently intended | confidence | as-written member | corrected member |
|---|---|---|---|---|---|---|
| src/main/kotlin/br/com/fatec/campusface/service/EntryRequestService.kt:129 with src/main/kotlin/br/com/fatec/campusface/repository/EntryRequestRepository.kt:17-22 | the edited request is saved through `save`, which always mints a new document id | a PENDING request r of user u for organization o, edited with role ADMIN: the store then holds r and a second PENDING copy for (u, o) | the edit replaces r under its own id, so a pair keeps at most one PENDING request | not executed | EntryRequests.EditAsNewDuplicatesPending | EntryRequests.EntryRequestService.UpdateRequestInPlace |
