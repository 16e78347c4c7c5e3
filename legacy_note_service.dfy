/** The note service of the older revision, which queries the note and user
    tables itself. Update and delete look a note up by id and owner together,
    so a caller who does not own the note is told it does not exist;
    visibility is changed through a lookup on the id's text form. */
module LegacyNoteServices {
  import opened Common
  import opened Identity
  import opened Notes
  import NoteServices

  const NotFoundOrDeniedMessage := "Note not found or access denied."
  const PublishNotFoundMessage := "Note not found"
  const ViewForbiddenMessage := "You are not authorized to view this note"

  /** `FirstOrDefaultAsync(n => n.Id == id && n.AuthorId == userId)`. */
  function FindOwned(notes: seq<Note>, id: Guid, userId: string): (r: Option<Note>)
    ensures r.None? <==> forall i :: 0 <= i < |notes| ==> !(notes[i].id == id && notes[i].ownerId == userId)
    ensures r.Some? ==> r.value in notes && r.value.id == id && r.value.ownerId == userId
  {
    match FirstWhere(notes, (n: Note) => n.id == id && n.ownerId == userId)
    case None => None
    case Some(i) => Some(notes[i])
  }

  /** `FirstOrDefaultAsync(n => n.Id.ToString() == noteId && n.AuthorId == userId)`:
      the id is compared as text, so no parse can fail. */
  function FindOwnedByText(codec: GuidCodec, notes: seq<Note>, noteId: string, userId: string): (r: Option<Note>)
    ensures r.None? <==> forall i :: 0 <= i < |notes| ==> !(codec.format(notes[i].id) == noteId && notes[i].ownerId == userId)
    ensures r.Some? ==> r.value in notes && codec.format(r.value.id) == noteId && r.value.ownerId == userId
    ensures r.Some? ==> exists i :: 0 <= i < |notes| && notes[i] == r.value && forall j :: 0 <= j < i ==>
              !(codec.format(notes[j].id) == noteId && notes[j].ownerId == userId)
  {
    match FirstWhere(notes, (n: Note) => codec.format(n.id) == noteId && n.ownerId == userId)
    case None => None
    case Some(i) => Some(notes[i])
  }

  /** The checks of update and delete: parse, then one lookup by id and owner. */
  function OwnedLookup(codec: GuidCodec, notes: seq<Note>, id: string, userId: string): (r: Result<Note>)
    ensures r == Fail(BadRequest(InvalidNoteIdMessage)) <==> codec.parse(id).None?
    ensures r == Fail(NotFound(NoteNotFoundMessage)) <==>
      codec.parse(id).Some? && forall n :: n in notes && n.id == codec.parse(id).value ==> n.ownerId != userId
    ensures r.Fail? ==> r.error in {BadRequest(InvalidNoteIdMessage), NotFound(NoteNotFoundMessage)}
    ensures r.Ok? ==> r.value in notes && Some(r.value.id) == codec.parse(id) && r.value.ownerId == userId
  {
    match codec.parse(id)
    case None => Fail(BadRequest(InvalidNoteIdMessage))
    case Some(g) =>
      match FindOwned(notes, g, userId)
      case None => Fail(NotFound(NoteNotFoundMessage))
      case Some(n) => Ok(n)
  }

  /** The checks of publish: `Guid.Parse`, whose failure is an unspecified
      fault, then `FindAsync` by key, then the owner comparison. */
  function PublishLookup(codec: GuidCodec, notes: seq<Note>, id: string, userId: string): (r: Result<Note>)
    requires UniqueIds(notes)
    ensures r == Fail(Fault) <==> codec.parse(id).None?
    ensures r == Fail(NotFound(PublishNotFoundMessage)) <==> codec.parse(id).Some? && !HasId(notes, codec.parse(id).value)
    ensures r == Fail(Unauthorized(ViewForbiddenMessage)) <==>
      codec.parse(id).Some? && exists n :: n in notes && n.id == codec.parse(id).value && n.ownerId != userId
    ensures r.Ok? ==> r.value in notes && Some(r.value.id) == codec.parse(id) && r.value.ownerId == userId
  {
    match codec.parse(id)
    case None => Fail(Fault)
    case Some(g) =>
      match FindNote(notes, g)
      case None => Fail(NotFound(PublishNotFoundMessage))
      case Some(n) =>
        NoteServices.SameIdSameNote(notes, g, n);
        if n.ownerId != userId then Fail(Unauthorized(ViewForbiddenMessage)) else Ok(n)
  }

  /** Against the current revision: for the owner both revisions find the same
      note; for anyone else the older one reports NotFound where the current
      one reports Unauthorized. */
  lemma OwnerLookupAgreesAcrossRevisions(codec: GuidCodec, notes: seq<Note>, id: string, userId: string, m: NoteServices.Messages)
    requires UniqueIds(notes)
    ensures OwnedLookup(codec, notes, id, userId).Ok? <==> NoteServices.Authorize(codec, notes, id, userId, m).Ok?
    ensures OwnedLookup(codec, notes, id, userId).Ok? ==>
              OwnedLookup(codec, notes, id, userId) == NoteServices.Authorize(codec, notes, id, userId, m)
    ensures NoteServices.Authorize(codec, notes, id, userId, m) == Fail(Unauthorized(m.forbidden)) ==>
              OwnedLookup(codec, notes, id, userId) == Fail(NotFound(NoteNotFoundMessage))
  {
    var legacy := OwnedLookup(codec, notes, id, userId);
    var current := NoteServices.Authorize(codec, notes, id, userId, m);
    if legacy.Ok? {
      NoteServices.SameIdSameNote(notes, legacy.value.id, legacy.value);
    }
    if current.Ok? {
      NoteServices.SameIdSameNote(notes, current.value.id, current.value);
    }
  }

  /** The owner of a stored public note passes every check that publish (and
      the unpublish the revision evidently intends) makes, so the fault the
      unpublish as written raises refuses a legitimate request. */
  lemma OwnerPassesUnpublishChecks(codec: GuidCodec, notes: seq<Note>, id: string, n: Note)
    requires UniqueIds(notes) && n in notes && codec.parse(id) == Some(n.id)
    ensures PublishLookup(codec, notes, id, n.ownerId) == Ok(n)
  {
    NoteServices.SameIdSameNote(notes, n.id, n);
  }

  /** Under the corrected unpublish, publishing a private note and then
      unpublishing it gives back the table it started from; the second call
      passes the same checks. */
  lemma CorrectedUnpublishRestores(codec: GuidCodec, notes: seq<Note>, id: string, userId: string)
    requires UniqueIds(notes)
    requires PublishLookup(codec, notes, id, userId).Ok?
    requires !PublishLookup(codec, notes, id, userId).value.isPublic
    ensures var n := PublishLookup(codec, notes, id, userId).value;
            var published := ReplaceById(notes, n.(isPublic := true));
            UniqueIds(published) &&
            PublishLookup(codec, published, id, userId) == Ok(n.(isPublic := true)) &&
            ReplaceById(published, n.(isPublic := true).(isPublic := false)) == notes
  {
    var n := PublishLookup(codec, notes, id, userId).value;
    var published := ReplaceById(notes, n.(isPublic := true));
    ReplaceKeepsIds(notes, n.(isPublic := true));
    var k :| 0 <= k < |notes| && notes[k] == n;
    assert published[k] == n.(isPublic := true);
    OwnerPassesUnpublishChecks(codec, published, id, n.(isPublic := true));
    ReplaceTwice(notes, n.(isPublic := true), n);
    ReplaceWithStored(notes, n);
  }

  /** The older service over the note and user tables of its context. */
  class NoteService {
    var notes: seq<Note>
    var users: seq<User>
    const codec: GuidCodec

    ghost predicate Valid() reads this {
      UniqueIds(notes)
    }

    constructor (users: seq<User>, codec: GuidCodec)
      ensures Valid() && notes == [] && this.users == users && this.codec == codec
    {
      notes := [];
      this.users := users;
      this.codec := codec;
    }

    /** `GetAllByUserIdAsync`: the caller's notes, newest first, as DTOs. */
    function GetAllByUserId(userId: string): (r: seq<NoteDto>)
      reads this
      ensures exists s :: ListsNewestFirst(s, notes, OwnedBy(userId)) && r == ToDtos(codec, s)
    {
      ToDtos(codec, Select(notes, OwnedBy(userId)))
    }

    /** `CreateAsync`: a new note owned by the caller, with its creation time;
        the request's visibility is not copied. */
    method Create(request: CreateNoteRequest, userId: string, id: Guid, now: Tick) returns (r: NoteDto)
      requires Valid() && !HasId(notes, id)
      modifies this
      ensures Valid() && users == old(users)
      ensures notes == old(notes) + [Note(id, request.title, request.content, now, userId, false)]
      ensures r == ToDto(codec, Note(id, request.title, request.content, now, userId, false))
    {
      var note := Note(id, request.title, request.content, now, userId, false);
      notes := notes + [note];
      r := ToDto(codec, note);
    }

    /** `UpdateNoteAsync`: only a note the caller owns is found; its title and
        content change. */
    method UpdateNote(id: string, title: string, content: string, userId: string) returns (r: Result<()>)
      requires Valid()
      modifies this
      ensures Valid() && users == old(users)
      ensures match OwnedLookup(codec, old(notes), id, userId)
        case Fail(e) => r == Fail(e) && notes == old(notes)
        case Ok(n) => r == Ok(()) && notes == ReplaceById(old(notes), n.(title := title, content := content))
    {
      var parsed := codec.parse(id);
      if parsed.None? {
        return Fail(BadRequest(InvalidNoteIdMessage));
      }
      var note := FindOwned(notes, parsed.value, userId);
      if note.None? {
        return Fail(NotFound(NoteNotFoundMessage));
      }
      ReplaceKeepsIds(notes, note.value.(title := title, content := content));
      notes := ReplaceById(notes, note.value.(title := title, content := content));
      r := Ok(());
    }

    /** `DeleteNoteAsync`: only a note the caller owns is found and removed. */
    method DeleteNote(id: string, userId: string) returns (r: Result<()>)
      requires Valid()
      modifies this
      ensures Valid() && users == old(users)
      ensures match OwnedLookup(codec, old(notes), id, userId)
        case Fail(e) => r == Fail(e) && notes == old(notes)
        case Ok(n) => r == Ok(()) && notes == RemoveById(old(notes), n.id) && |notes| == |old(notes)| - 1
    {
      var parsed := codec.parse(id);
      if parsed.None? {
        return Fail(BadRequest(InvalidNoteIdMessage));
      }
      var note := FindOwned(notes, parsed.value, userId);
      if note.None? {
        return Fail(NotFound(NoteNotFoundMessage));
      }
      var k :| 0 <= k < |notes| && notes[k] == note.value;
      RemoveByIdTakesOne(notes, k);
      WhereKeepsUniqueIds(notes, AllBut(note.value.id));
      notes := RemoveById(notes, note.value.id);
      r := Ok(());
    }

    /** `GetPublicNotesAsync`: every public note, newest first, as DTOs. */
    function GetPublicNotes(): (r: seq<NoteDto>)
      reads this
      ensures exists s :: ListsNewestFirst(s, notes, Public) && r == ToDtos(codec, s)
    {
      ToDtos(codec, Select(notes, Public))
    }

    /** `PublishNoteAsync`: lookup by key, then the owner check. */
    method PublishNote(id: string, userId: string) returns (r: Result<()>)
      requires Valid()
      modifies this
      ensures Valid() && users == old(users)
      ensures match PublishLookup(codec, old(notes), id, userId)
        case Fail(e) => r == Fail(e) && notes == old(notes)
        case Ok(n) => r == Ok(()) && notes == ReplaceById(old(notes), n.(isPublic := true))
    {
      var parsed := codec.parse(id);
      if parsed.None? {
        return Fail(Fault);
      }
      var note := FindNote(notes, parsed.value);
      if note.None? {
        return Fail(NotFound(PublishNotFoundMessage));
      }
      if note.value.ownerId != userId {
        return Fail(Unauthorized(ViewForbiddenMessage));
      }
      ReplaceKeepsIds(notes, note.value.(isPublic := true));
      notes := ReplaceById(notes, note.value.(isPublic := true));
      r := Ok(());
    }

    /** `UnpublishNoteAsync`: the key lookup is given the id as text while the
        key is a GUID, and that lookup fails for every input, so the call
        always faults and no note is unpublished. */
    method UnpublishNote(id: string, userId: string) returns (r: Result<()>)
      ensures r == Fail(Fault)
    {
      r := Fail(Fault);
    }

    /** The unpublish the revision evidently intends, mirroring `PublishNote`:
        parse the id, look the note up by key, check the owner, and clear the
        public flag. */
    method UnpublishNoteCorrected(id: string, userId: string) returns (r: Result<()>)
      requires Valid()
      modifies this
      ensures Valid() && users == old(users)
      ensures match PublishLookup(codec, old(notes), id, userId)
        case Fail(e) => r == Fail(e) && notes == old(notes)
        case Ok(n) => r == Ok(()) && notes == ReplaceById(old(notes), n.(isPublic := false))
    {
      var parsed := codec.parse(id);
      if parsed.None? {
        return Fail(Fault);
      }
      var note := FindNote(notes, parsed.value);
      if note.None? {
        return Fail(NotFound(PublishNotFoundMessage));
      }
      if note.value.ownerId != userId {
        return Fail(Unauthorized(ViewForbiddenMessage));
      }
      ReplaceKeepsIds(notes, note.value.(isPublic := false));
      notes := ReplaceById(notes, note.value.(isPublic := false));
      r := Ok(());
    }

    /** `GetPublicNotesPagedAsync`: one page of the public notes, newest first,
        with the page number and size as given and the number of public notes.
        Every `sortBy` orders the same way. */
    function GetPublicNotesPaged(pageNumber: int32, pageSize: int32, sortBy: Option<string>): (r: PagedResponse)
      reads this
      ensures r.pageNumber == pageNumber && r.pageSize == pageSize
      ensures exists s :: ListsNewestFirst(s, notes, Public) &&
                          r.data == ToDtos(codec, Page(s, pageNumber, pageSize)) && r.totalRecords == |s|
    {
      var ordered := match sortBy
        case Some("created_at") => Select(notes, Public)
        case Some("created_at_desc") => Select(notes, Public)
        case _ => Select(notes, Public);
      PagedResponse(ToDtos(codec, Page(ordered, pageNumber, pageSize)), pageNumber, pageSize, |ordered|)
    }

    /** The requested sort key has no effect on the response. */
    lemma SortByIgnored(pageNumber: int32, pageSize: int32, sortBy: Option<string>, other: Option<string>)
      ensures GetPublicNotesPaged(pageNumber, pageSize, sortBy) == GetPublicNotesPaged(pageNumber, pageSize, other)
    {
    }

    /** `GetPublicNotesByUsernameAsync`: the public notes of the first user
        with that username, newest first; NotFound when there is none. */
    function GetPublicNotesByUsername(username: string): (r: Result<seq<NoteDto>>)
      reads this
      ensures r.Fail? <==> forall i :: 0 <= i < |users| ==> users[i].username != username
      ensures r.Fail? ==> r.error == NotFound(UserNotFoundMessage)
      ensures r.Ok? ==> exists u, s :: FindByUsername(users, username) == Some(u) &&
                                      ListsNewestFirst(s, notes, PublicOwnedBy(u.id)) && r.value == ToDtos(codec, s)
    {
      match FindByUsername(users, username)
      case None => Fail(NotFound(UserNotFoundMessage))
      case Some(user) => Ok(ToDtos(codec, Select(notes, PublicOwnedBy(user.id))))
    }

    /** `SetNotePublicStatusAsync`: one lookup on the id's text form and the
        owner; only `IsPublic` changes. */
    method SetNotePublicStatus(noteId: string, userId: string, isPublic: bool) returns (r: Result<()>)
      requires Valid()
      modifies this
      ensures Valid() && users == old(users)
      ensures match FindOwnedByText(codec, old(notes), noteId, userId)
        case None => r == Fail(NotFound(NotFoundOrDeniedMessage)) && notes == old(notes)
        case Some(n) => r == Ok(()) && notes == ReplaceById(old(notes), n.(isPublic := isPublic))
    {
      var note := FindOwnedByText(codec, notes, noteId, userId);
      if note.None? {
        return Fail(NotFound(NotFoundOrDeniedMessage));
      }
      ReplaceKeepsIds(notes, note.value.(isPublic := isPublic));
      notes := ReplaceById(notes, note.value.(isPublic := isPublic));
      r := Ok(());
    }
  }
}
