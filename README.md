# InsightBoard core in Dafny

InsightBoard is a note-sharing web API. This project models its two guarded
tables, each in both revisions of the code:

- **The refresh-token session ledger** (`Auth`, current revision; `LegacyAuth`,
  older revision). Register rejects a duplicate email, login rejects an
  unknown email and a failed password check with one message, and refresh
  redeems a refresh-token record. Redeeming flips the record to used (current)
  or revoked (older) and appends a replacement for the same user. Each service
  is a class whose fields are the user and token tables. Its methods are proved
  equal to pure step functions (`RegisterStep`, `LoginStep`, `RefreshStep`), and
  the lemmas about those functions state the ledger's promises: single use,
  acceptance at the expiry instant, and that no other record changes.
- **Note ownership and visibility** (`Notes`, `Repositories`, `NoteServices`,
  `LegacyNoteServices`). The current service checks every mutation in a fixed
  order: the id must parse as a GUID, a note must have it, and the caller must
  own it. `NoteServices.Authorize` states that order. The older service's
  update and delete look notes up by id and owner together, so a non-owner is
  told the note does not exist; `LegacyNoteServices.OwnerLookupAgreesAcrossRevisions`
  compares the two revisions there. Its publish looks up by id first and answers
  a non-owner with Unauthorized "You are not authorized to view this note", and
  its set-visibility matches id text and owner together and answers "Note not
  found or access denied.". The queries filter, order newest first (a stable insertion sort),
  and page with LINQ's `Skip`/`Take` over a 32-bit offset that can wrap.

Modules: `Common` (Option, Result, errors, `int32`, GUIDs, a first-match
search), `Identity` (users, the collaborators the auth services call but do not
define, the response), `Auth`, `LegacyAuth`, `Notes` (the note table and its
pure queries), `Repositories`, `NoteServices`, `LegacyNoteServices`.

The owner field is called `AuthorId` by the services and `UserId` by the
current note model and repository. The model has one field, `ownerId`. It
follows the code, which compares the service's `AuthorId` with the caller.

Time is a `Tick` in seconds, and one `now` serves a whole call. Fresh GUIDs and
secrets are parameters, with a precondition that they are new to the table.
Password hashing and verification, JWT writing, and `Guid.TryParse` /
`Guid.ToString` are functions held in a datatype (`Identity.Collaborators`,
`Notes.GuidCodec`). Their behaviour is left open.

## Model

| member | source | states |
|---|---|---|
| Common.Wrap32 | InsightBoard.Api/Repositories/NoteRepository.cs:92 | the result is a signed 32-bit value congruent to the argument modulo 2^32, and equals the argument when that fits (C# unchecked `int` arithmetic) |
| Common.FirstWhere | InsightBoard.Api/Repositories/UserRepository.cs:23 | `FirstOrDefault`: the index found satisfies the predicate and no earlier element does; none is found exactly when no element satisfies it |
| Identity.FindByEmail | InsightBoard.Api/Services/Auth/AuthService.cs:70 | a user is found exactly when some user has that email, and the user found has it |
| Identity.FindById | InsightBoard.Api/Services/Auth/AuthService.cs:110-112 | the user a token's `UserId` names is found exactly when a user has that id |
| Identity.FindByUsername | InsightBoard.Api/Repositories/UserRepository.cs:21-24 | none exactly when no user has the username; otherwise the first user that has it |
| Identity.Respond | InsightBoard.Api/Services/Auth/AuthService.cs:145-169 | every response's access token expires 15 minutes after `now` and the response carries the given refresh token |
| Auth.FindBySecret | InsightBoard.Api/Services/Auth/AuthService.cs:110-112 | the record found has the presented secret; none exactly when no record has it |
| Auth.Redeemable | InsightBoard.Api/Services/Auth/AuthService.cs:114 | definition of the refresh guard: not used, not invalidated, and not `ExpiryDate < now`; its consequences are stated by `Issue`, `RefreshStep` and `ExpiryInstantAccepted` |
| Auth.Issue | InsightBoard.Api/Services/Auth/AuthService.cs:123-132 | the new record carries the fresh id, secret and JWT id and the given owner, is created at `now`, and is redeemable at exactly the instants up to and including 7 days after `now` |
| Auth.RegisterStep | InsightBoard.Api/Services/Auth/AuthService.cs:26-66 | fails with "User with this email already exists." exactly when the email is taken, with the tables unchanged; otherwise appends one user (password hash from the hasher) and the record `Issue` makes for that user from the fresh id, secret and JWT id, and returns its secret with a 15-minute JWT for that user whose `jti` is the record's JWT id; the tables stay consistent |
| Auth.LoginStep | InsightBoard.Api/Services/Auth/AuthService.cs:68-106 | fails with "Wrong email or password." exactly when no user has the email or verification returns Failed (so SuccessRehashNeeded logs in), with no token added; otherwise appends the record `Issue` makes for the user with that email and returns its secret with a 15-minute JWT for that user whose `jti` is the record's JWT id |
| Auth.RefreshStep | InsightBoard.Api/Services/Auth/AuthService.cs:108-143 | fails with "Invalid refresh token." exactly when no record with the secret is unused, non-invalidated and not expired (`ExpiryDate < now`), with the tables unchanged; otherwise the redeemed record alone becomes used, the record `Issue` makes for the same user (a different secret) is appended, and the response carries its secret and a 15-minute JWT for the stored user with that id whose `jti` is the new record's JWT id |
| Auth.RedeemKeepsConsistent | InsightBoard.Api/Services/Auth/AuthService.cs:119-134 | marking a record used and appending a fresh record for a stored user keeps secrets and ids unique and every token's owner stored |
| Auth.RefreshIsSingleUse | InsightBoard.Api/Services/Auth/AuthService.cs:114-119 | after a successful refresh with a secret, a second refresh with it fails at any time |
| Auth.SpentIsNotRedeemable | InsightBoard.Api/Services/Auth/AuthService.cs:114-119 | once a record is marked used and a record with another secret is appended, no record with the spent secret is redeemable |
| Auth.TokensOnlyGrowOrGetUsed | InsightBoard.Api/Services/Auth/AuthService.cs:119-135 | after a refresh every earlier record is as it was, except the one with the presented secret, which may only have become used |
| Auth.ExpiryInstantAccepted | InsightBoard.Api/Services/Auth/AuthService.cs:114 | an unused, non-invalidated record presented at exactly its expiry instant is redeemed |
| Auth.AuthService.Register | InsightBoard.Api/Services/Auth/AuthService.cs:26-66 | the new tables and the response are those of `RegisterStep`; consistency is kept |
| Auth.AuthService.Login | InsightBoard.Api/Services/Auth/AuthService.cs:68-106 | the new tables and the response are those of `LoginStep`; consistency is kept |
| Auth.AuthService.Refresh | InsightBoard.Api/Services/Auth/AuthService.cs:108-143 | the record flipped in place and the appended replacement are those of `RefreshStep`; consistency is kept |
| LegacyAuth.FindToken | Services/Auth/AuthService.cs:90-92 | the record found has the presented id; none exactly when no record has it |
| LegacyAuth.Redeemable | Services/Auth/AuthService.cs:94 | definition of the refresh guard: not revoked and not `ExpiresAt < now`; its consequences are stated by `Issue`, `RefreshStep` and `ExpiryInstantAccepted` |
| LegacyAuth.Issue | Services/Auth/AuthService.cs:102-106 | the new record has the fresh id and the given owner and is redeemable at exactly the instants up to and including 7 days after `now` |
| LegacyAuth.RegisterStep | Services/Auth/AuthService.cs:29-57 | duplicate email fails with "User with this email already exists." and changes nothing; otherwise one user and the record `Issue` makes for it, whose id is returned as the refresh token with a 15-minute JWT for that user and no `jti` |
| LegacyAuth.LoginStep | Services/Auth/AuthService.cs:59-86 | fails with "Wrong email or password." exactly when no user has the email or verification returns Failed; otherwise appends the record `Issue` makes for the user with that email and returns its id with a 15-minute JWT for that user and no `jti` |
| LegacyAuth.RefreshStep | Services/Auth/AuthService.cs:88-112 | fails with "Invalid refresh token." exactly when no record with the id is unrevoked and not expired; otherwise the record alone is revoked, the record `Issue` makes for the same user is appended, and the response carries its id and a 15-minute JWT for the stored user with that id and no `jti` |
| LegacyAuth.RevokeKeepsConsistent | Services/Auth/AuthService.cs:100-108 | revoking a record and appending a fresh one for a stored user keeps ids unique and owners stored |
| LegacyAuth.RefreshIsSingleUse | Services/Auth/AuthService.cs:94-100 | once redeemed, the same id is refused on every later refresh |
| LegacyAuth.RevokedIsNotRedeemable | Services/Auth/AuthService.cs:94-100 | once a record is revoked and a record with another id is appended, no record with the revoked id is redeemable |
| LegacyAuth.ExpiryInstantAccepted | Services/Auth/AuthService.cs:94 | an unrevoked record is accepted at exactly its expiry instant; a revoked one is refused at any time |
| LegacyAuth.AuthService.Register | Services/Auth/AuthService.cs:29-57 | the new tables and the response are those of `RegisterStep` |
| LegacyAuth.AuthService.Login | Services/Auth/AuthService.cs:59-86 | the new tables and the response are those of `LoginStep` |
| LegacyAuth.AuthService.Refresh | Services/Auth/AuthService.cs:88-112 | the revocation in place and the appended record are those of `RefreshStep` |
| Notes.FindNote | InsightBoard.Api/Repositories/NoteRepository.cs:28-33 | a note is found exactly when some note has the id, and it is a stored note with that id |
| Notes.Where | InsightBoard.Api/Repositories/NoteRepository.cs:23 | keeps exactly the notes the filter accepts, each as often as it is stored |
| Notes.InsertByDate | InsightBoard.Api/Repositories/NoteRepository.cs:24 | inserting into a newest-first list keeps it newest first and adds exactly that note |
| Notes.SortNewestFirst | InsightBoard.Api/Repositories/NoteRepository.cs:24 | `OrderByDescending(CreatedAt)`: the result is newest first and a permutation of the input |
| Notes.Select | InsightBoard.Api/Repositories/NoteRepository.cs:19-26 | the result is newest first and holds exactly the kept notes, with their multiplicities |
| Notes.Skip | InsightBoard.Api/Repositories/NoteRepository.cs:92 | a non-positive count skips nothing, a count past the end leaves nothing, otherwise the suffix |
| Notes.Take | InsightBoard.Api/Repositories/NoteRepository.cs:93 | a non-positive count takes nothing, a count past the end takes all, otherwise the prefix |
| Notes.Offset | InsightBoard.Api/Repositories/NoteRepository.cs:92 | `(pageNumber - 1) * pageSize` in unchecked 32-bit arithmetic: congruent to the true product modulo 2^32, and equal to it whenever it fits in 32 bits |
| Notes.WrapProduct | InsightBoard.Api/Repositories/NoteRepository.cs:92 | wrapping an operand and then the product gives a value congruent to the true product, and the true product when that fits |
| Notes.Page | InsightBoard.Api/Repositories/NoteRepository.cs:91-94 | a page is a contiguous run of the list, a prefix of some suffix, holding at most pageSize notes (none for a negative size); `PageIsSlice` pins down where it starts |
| Notes.PageIsSlice | InsightBoard.Api/Repositories/NoteRepository.cs:91-94 | for page numbers from 1 whose offset fits in 32 bits, a page is the contiguous slice starting (pageNumber-1)*pageSize in, of at most pageSize notes |
| Notes.OffsetOfLaterPages | InsightBoard.Api/Repositories/NoteRepository.cs:92 | from page 1 on, an offset that fits in 32 bits is the exact non-negative product `(pageNumber - 1) * pageSize` |
| Notes.PageAtOffset | InsightBoard.Api/Repositories/NoteRepository.cs:91-94 | when the offset is a non-negative value, the page is the slice from there of at most pageSize notes, clipped to the list |
| Notes.NonPositivePageNumberGivesFirstPage | InsightBoard.Api/Repositories/NoteRepository.cs:92 | with LINQ-to-Objects semantics for a negative offset, a page number of 1 or less yields the first pageSize notes (see "Left out" for the database's behaviour) |
| Notes.OffsetWraps | InsightBoard.Api/Repositories/NoteRepository.cs:92 | the offset wraps in 32 bits: page 2^30+1 of size 4 is the first page |
| Notes.ReplaceById | InsightBoard.Api/Repositories/NoteRepository.cs:41-45 | the row with the note's id takes the note's values; every other row and the length are unchanged |
| Notes.ReplaceKeepsIds | InsightBoard.Api/Repositories/NoteRepository.cs:41-45 | an update keeps the key unique and the set of ids the same |
| Notes.ReplaceTwice | InsightBoard.Api/Repositories/NoteRepository.cs:41-45 | two updates of the same row: the second wins |
| Notes.ReplaceWithStored | InsightBoard.Api/Repositories/NoteRepository.cs:41-45 | writing back a stored row unchanged leaves the table as it was |
| Notes.RemoveById | InsightBoard.Api/Repositories/NoteRepository.cs:47-51 | exactly the rows with that id go; every other row stays, as often as before |
| Notes.WhereKeepsUniqueIds | InsightBoard.Api/Repositories/NoteRepository.cs:47-51 | filtering a table with unique ids keeps them unique |
| Notes.RemoveByIdTakesOne | InsightBoard.Api/Repositories/NoteRepository.cs:47-51 | under unique ids, removing a stored note's id removes that one row and shortens the table by one |
| Notes.OnlyOnce | InsightBoard.Api/Repositories/NoteRepository.cs:47-51 | under unique ids every stored note occurs exactly once |
| Notes.ToDtos | InsightBoard.Api/Profiles/NoteProfile.cs:11-12 | one DTO per note, in order, each carrying the note's id as text |
| Repositories.NoteRepository.GetAllByUserId | InsightBoard.Api/Repositories/NoteRepository.cs:19-26 | exactly the user's notes, as a permutation, newest first |
| Repositories.NoteRepository.GetById | InsightBoard.Api/Repositories/NoteRepository.cs:28-33 | the note with the id, or none exactly when no note has it |
| Repositories.NoteRepository.Create | InsightBoard.Api/Repositories/NoteRepository.cs:35-39 | the note is appended and nothing else changes |
| Repositories.NoteRepository.Update | InsightBoard.Api/Repositories/NoteRepository.cs:41-45 | the stored note with the id takes the given values; other rows unchanged; ids stay unique |
| Repositories.NoteRepository.Delete | InsightBoard.Api/Repositories/NoteRepository.cs:47-51 | exactly the note with the id is removed; the table shrinks by one |
| Repositories.NoteRepository.GetPublicNotesByUsername | InsightBoard.Api/Repositories/NoteRepository.cs:53-65 | NotFound "User not found." exactly when no user has the username; otherwise exactly the public notes of the first such user, newest first |
| Repositories.NoteRepository.GetPublicNotes | InsightBoard.Api/Repositories/NoteRepository.cs:67-74 | every public note and no private one, newest first |
| Repositories.NoteRepository.GetPublicNotesPaged | InsightBoard.Api/Repositories/NoteRepository.cs:76-97 | the page of the newest-first public list, and a total that is the number of public notes whatever the page or `sortBy` |
| Repositories.NoteRepository.SortByIgnored | InsightBoard.Api/Repositories/NoteRepository.cs:82-87 | every `sortBy` value gives the same page and total |
| NoteServices.Authorize | InsightBoard.Api/Services/Notes/NoteService.cs:40-57 | BadRequest "Invalid note ID." exactly when the id does not parse; NotFound exactly when it parses and no note has it (whoever asks); Unauthorized exactly when the note exists and belongs to someone else; otherwise the caller's note |
| NoteServices.FoundAfterReplace | InsightBoard.Api/Services/Notes/NoteService.cs:100-109 | after the found note is written back with the same id and owner, the same checks find the written note |
| NoteServices.PublishThenUnpublishRestores | InsightBoard.Api/Services/Notes/NoteService.cs:93-129 | publishing a private note and then unpublishing it restores the table exactly, and the second call passes its checks |
| NoteServices.SetVisibilityIdempotent | InsightBoard.Api/Services/Notes/NoteService.cs:150-167 | setting the same visibility twice leaves the table as one call does |
| NoteServices.DeletedNoteIsNotFound | InsightBoard.Api/Services/Notes/NoteService.cs:65-85 | after an owner's delete, every later mutation of that id, by anyone, reports NotFound |
| NoteServices.NoteService.Create | InsightBoard.Api/Services/Notes/NoteService.cs:27-38 | appends a private note owned by the caller with the request's title and content and time `now`, ignoring the request's visibility, and returns its DTO |
| NoteServices.NoteService.UpdateNote | InsightBoard.Api/Services/Notes/NoteService.cs:40-63 | on any failed check the table is unchanged and that error returned; otherwise only the note's title and content change |
| NoteServices.NoteService.DeleteNote | InsightBoard.Api/Services/Notes/NoteService.cs:65-85 | on any failed check the table is unchanged; otherwise exactly that note is removed |
| NoteServices.NoteService.PublishNote | InsightBoard.Api/Services/Notes/NoteService.cs:93-110 | on any failed check the table is unchanged; otherwise only the note's flag becomes public |
| NoteServices.NoteService.UnpublishNote | InsightBoard.Api/Services/Notes/NoteService.cs:112-129 | on any failed check the table is unchanged; otherwise only the note's flag becomes private |
| NoteServices.NoteService.SetNotePublicStatus | InsightBoard.Api/Services/Notes/NoteService.cs:150-167 | on any failed check the table is unchanged; otherwise only the note's flag takes the given value |
| NoteServices.NoteService.SetVisibility | InsightBoard.Api/Services/Notes/NoteService.cs:150-167 | the check-then-set-flag sequence the three visibility operations share |
| NoteServices.NoteService.Check | InsightBoard.Api/Services/Notes/NoteService.cs:42-57 | parse, lookup and owner comparison give exactly `Authorize` |
| NoteServices.NoteService.GetPublicNotesPaged | InsightBoard.Api/Services/Notes/NoteService.cs:131-142 | echoes pageNumber and pageSize, reports the number of public notes, and returns the page of the newest-first public list as DTOs |
| NoteServices.NoteService.GetAllByUserId | InsightBoard.Api/Services/Notes/NoteService.cs:21-25 | the DTOs of exactly the caller's notes, newest first |
| NoteServices.NoteService.GetPublicNotes | InsightBoard.Api/Services/Notes/NoteService.cs:87-91 | the DTOs of exactly the public notes, newest first |
| NoteServices.NoteService.GetPublicNotesByUsername | InsightBoard.Api/Services/Notes/NoteService.cs:144-148 | the repository's NotFound passes through; otherwise the DTOs of that user's public notes, newest first |
| LegacyNoteServices.FindOwned | Services/Notes/NoteService.cs:55 | a note is found exactly when one has both the id and the owner, and it has both |
| LegacyNoteServices.FindOwnedByText | Services/Notes/NoteService.cs:173-174 | the first note whose id, as text, equals the given string and that the caller owns; none exactly when there is no such note |
| LegacyNoteServices.OwnedLookup | Services/Notes/NoteService.cs:48-59 | BadRequest "Invalid note ID." exactly when the id does not parse; NotFound "Note not found." exactly when no note with it belongs to the caller, which includes a note owned by someone else |
| LegacyNoteServices.PublishLookup | Services/Notes/NoteService.cs:94-102 | an unparsable id is a fault; NotFound "Note not found" exactly when no note has the id; Unauthorized "You are not authorized to view this note" exactly when someone else owns it |
| LegacyNoteServices.OwnerLookupAgreesAcrossRevisions | Services/Notes/NoteService.cs:55-59 | for the owner both revisions find the same note; where the current revision reports Unauthorized the older one reports NotFound |
| LegacyNoteServices.OwnerPassesUnpublishChecks | Services/Notes/NoteService.cs:108-120 | the owner of a stored note whose id parses passes every check of the publish lookup, which the intended unpublish shares, so the fault of the unpublish as written refuses a legitimate request |
| LegacyNoteServices.CorrectedUnpublishRestores | Services/Notes/NoteService.cs:94-120 | under the corrected unpublish, publishing a private note and unpublishing it restores the table exactly, and the second call passes its checks |
| LegacyNoteServices.NoteService.GetAllByUserId | Services/Notes/NoteService.cs:22-30 | the DTOs of exactly the caller's notes, newest first |
| LegacyNoteServices.NoteService.Create | Services/Notes/NoteService.cs:33-46 | appends a private note owned by the caller with the request's title and content and returns its DTO |
| LegacyNoteServices.NoteService.UpdateNote | Services/Notes/NoteService.cs:48-65 | unless the caller owns a note with the id, the table is unchanged and the lookup's error returned; otherwise only title and content change |
| LegacyNoteServices.NoteService.DeleteNote | Services/Notes/NoteService.cs:67-82 | unless the caller owns a note with the id, the table is unchanged; otherwise exactly that note is removed |
| LegacyNoteServices.NoteService.GetPublicNotes | Services/Notes/NoteService.cs:84-92 | the DTOs of exactly the public notes, newest first |
| LegacyNoteServices.NoteService.PublishNote | Services/Notes/NoteService.cs:94-106 | on any failed lookup the table is unchanged; otherwise only the note's flag becomes public |
| LegacyNoteServices.NoteService.UnpublishNote | Services/Notes/NoteService.cs:108-120 | always fails with a fault and unpublishes nothing, because the key lookup is given text for a GUID key |
| LegacyNoteServices.NoteService.UnpublishNoteCorrected | Services/Notes/NoteService.cs:108-120 | the evidently intended unpublish: the publish lookup's errors with the table unchanged; otherwise only the note's flag becomes private |
| LegacyNoteServices.NoteService.SortByIgnored | Services/Notes/NoteService.cs:127-132 | every `sortBy` value gives the same response |
| LegacyNoteServices.NoteService.GetPublicNotesPaged | Services/Notes/NoteService.cs:122-148 | echoes pageNumber and pageSize, counts every public note, and returns the page of the newest-first public list as DTOs, for every `sortBy` |
| LegacyNoteServices.NoteService.GetPublicNotesByUsername | Services/Notes/NoteService.cs:150-169 | NotFound "User not found." exactly when no user has the username; otherwise the DTOs of the first such user's public notes, newest first |
| LegacyNoteServices.NoteService.SetNotePublicStatus | Services/Notes/NoteService.cs:171-181 | NotFound "Note not found or access denied." with the table unchanged unless a note matches both the id text and the owner; otherwise only that note's flag changes |

## Findings

| source | as written | input that shows it | evidently intended | confidence | as-written member | corrected member |
|---|---|---|---|---|---|---|
| Services/Notes/NoteService.cs:110 | `FindAsync(noteId)` passes the id as a string to a lookup whose key is a GUID, so every call faults before the not-found and owner checks | the owner of a stored public note, with that note's id as text (`OwnerPassesUnpublishChecks` shows the lookup publish uses accepts it) | parse the id as publish does, then the same lookups and owner check, then clear the public flag | high; not executed | LegacyNoteServices.NoteService.UnpublishNote | LegacyNoteServices.NoteService.UnpublishNoteCorrected (with `CorrectedUnpublishRestores`) |

## Left out

- JWT construction and HMAC-SHA256 signing (RFC 7519), and ASP.NET's `PasswordHasher`, are functions of `Identity.Collaborators` with no defined behaviour. Only the claims passed and the expiry are modelled.
- `PasswordHasher.HashPassword(user, password)` takes the user and draws a random salt; `Identity.Collaborators.hash` takes only the password and is deterministic, so the model does not capture that two users with the same password get different hashes.
- `Guid.NewGuid()` and `DateTime.UtcNow` are parameters. The source reads the clock several times in one call; the model uses one `now` for all of them.
- `Guid.TryParse`, `Guid.Parse` and `Guid.ToString` are `Notes.GuidCodec`, with no defined behaviour. The model relies on no round trip between them.
- Entity Framework, `SaveChangesAsync`, `Include`, async/await, the database context and `Program.cs` are not modelled. The tables are sequences held by the service or repository objects.
- Concurrent refresh requests and transactions: the model is sequential.
- Controllers, both error-handling middlewares, the AutoMapper profiles beyond the note-to-DTO map, the React frontend, and the `Question` and `Answer` models.
- The `Console.WriteLine` of the JWT key length in the older auth service.
- The order of notes with equal `CreatedAt`: the database does not define it. The model keeps table order, which is one of the orders the source allows.
- `UpdateAsync` and `DeleteAsync` on a note that is not stored throw inside Entity Framework. The repository methods require the note to be stored, which every service call ensures.
- `SingleOrDefault` throws when two rows match. The unique-email and unique-secret invariants rule that out, and the model uses the first match.
- The exact exceptions of the older `Guid.Parse` failure and of the older `FindAsync` called with a string key are both `Fault`, with no message.
- LegacyNoteServices.NoteService.UnpublishNote: the model does not tell the two owner checks apart, since the call faults before reaching them.
- LegacyNoteServices.NoteService.Create: the older `Note` model file is not part of this model. The new note is taken to be private and stamped `now`, as in the current model.
- Repositories.NoteRepository.Update: Entity Framework's change tracking is modelled as a write of the whole row by id.
- Notes.Skip: follows LINQ-to-Objects, where a negative count skips nothing. The query runs on PostgreSQL through Npgsql, which rejects a negative OFFSET, so a page number of 0 or below with a positive page size (or a negative page size with a page number above 1) is an error there that the model does not report.
- Notes.Take: follows LINQ-to-Objects, where a negative count takes nothing. PostgreSQL rejects a negative LIMIT, so a negative page size is an error there that the model does not report.
- Notes.NonPositivePageNumberGivesFirstPage: states the LINQ-to-Objects outcome; against the database the same request fails instead of returning the first page.
