/** The note service of the current revision. Every mutation checks, in this
    order, that the id parses as a GUID, that a note has that id, and that the
    caller owns it; the first failing check decides the error and the table is
    left as it was. */
module NoteServices {
  import opened Common
  import opened Identity
  import opened Notes
  import opened Repositories

  /** The messages one mutation reports when the note is missing and when the
      caller does not own it. */
  datatype Messages = Messages(notFound: string, forbidden: string)

  const UpdateMessages := Messages(NoteNotFoundMessage, "You are not authorized to update this note.")
  const DeleteMessages := Messages(NoteNotFoundMessage, "You are not authorized to delete this note.")
  const PublishMessages := Messages("Note not found", "You are not authorized to publish this note")
  const UnpublishMessages := Messages("Note not found", "You are not authorized to unpublish this note")
  const VisibilityMessages := Messages("Note not found", "You are not authorized to modify this note")

  /** The three checks every mutation makes before it touches the table. */
  function Authorize(codec: GuidCodec, notes: seq<Note>, id: string, userId: string, m: Messages): (r: Result<Note>)
    requires UniqueIds(notes)
    ensures r == Fail(BadRequest(InvalidNoteIdMessage)) <==> codec.parse(id).None?
    ensures r == Fail(NotFound(m.notFound)) <==> codec.parse(id).Some? && !HasId(notes, codec.parse(id).value)
    ensures r == Fail(Unauthorized(m.forbidden)) <==>
      codec.parse(id).Some? && exists n :: n in notes && n.id == codec.parse(id).value && n.ownerId != userId
    ensures r.Fail? ==> r.error in {BadRequest(InvalidNoteIdMessage), NotFound(m.notFound), Unauthorized(m.forbidden)}
    ensures r.Ok? <==> codec.parse(id).Some? && exists n :: n in notes && n.id == codec.parse(id).value && n.ownerId == userId
    ensures r.Ok? ==> r.value in notes && Some(r.value.id) == codec.parse(id) && r.value.ownerId == userId
  {
    match codec.parse(id)
    case None => Fail(BadRequest(InvalidNoteIdMessage))
    case Some(g) =>
      match FindNote(notes, g)
      case None => Fail(NotFound(m.notFound))
      case Some(note) =>
        SameIdSameNote(notes, g, note);
        if note.ownerId != userId then Fail(Unauthorized(m.forbidden)) else Ok(note)
  }

  /** In a table with unique ids, the note with a given id is the only one. */
  lemma SameIdSameNote(notes: seq<Note>, id: Guid, note: Note)
    requires UniqueIds(notes) && note in notes && note.id == id
    ensures forall n :: n in notes && n.id == id ==> n == note
  {
  }

  /** After the note a check found is written back with the same id and
      owner, the same check finds the written note. */
  lemma FoundAfterReplace(codec: GuidCodec, notes: seq<Note>, id: string, userId: string, m: Messages, m2: Messages, n: Note)
    requires UniqueIds(notes)
    requires Authorize(codec, notes, id, userId, m).Ok?
    requires n.id == Authorize(codec, notes, id, userId, m).value.id
    requires n.ownerId == userId
    ensures UniqueIds(ReplaceById(notes, n))
    ensures Authorize(codec, ReplaceById(notes, n), id, userId, m2) == Ok(n)
  {
    var found := Authorize(codec, notes, id, userId, m).value;
    var r := ReplaceById(notes, n);
    ReplaceKeepsIds(notes, n);
    var k :| 0 <= k < |notes| && notes[k] == found;
    assert r[k] == n;
    SameIdSameNote(r, n.id, n);
  }

  /** Publishing a private note and then unpublishing it gives back the
      table it started from; the second call passes the same checks. */
  lemma PublishThenUnpublishRestores(codec: GuidCodec, notes: seq<Note>, id: string, userId: string)
    requires UniqueIds(notes)
    requires Authorize(codec, notes, id, userId, PublishMessages).Ok?
    requires !Authorize(codec, notes, id, userId, PublishMessages).value.isPublic
    ensures var n := Authorize(codec, notes, id, userId, PublishMessages).value;
            var published := ReplaceById(notes, n.(isPublic := true));
            UniqueIds(published) &&
            Authorize(codec, published, id, userId, UnpublishMessages) == Ok(n.(isPublic := true)) &&
            ReplaceById(published, n.(isPublic := true).(isPublic := false)) == notes
  {
    var n := Authorize(codec, notes, id, userId, PublishMessages).value;
    FoundAfterReplace(codec, notes, id, userId, PublishMessages, UnpublishMessages, n.(isPublic := true));
    ReplaceTwice(notes, n.(isPublic := true), n);
    ReplaceWithStored(notes, n);
  }

  /** Setting visibility twice to the same value changes the table no more
      than setting it once. */
  lemma SetVisibilityIdempotent(codec: GuidCodec, notes: seq<Note>, id: string, userId: string, isPublic: bool)
    requires UniqueIds(notes)
    requires Authorize(codec, notes, id, userId, VisibilityMessages).Ok?
    ensures var n := Authorize(codec, notes, id, userId, VisibilityMessages).value;
            var once := ReplaceById(notes, n.(isPublic := isPublic));
            UniqueIds(once) &&
            Authorize(codec, once, id, userId, VisibilityMessages) == Ok(n.(isPublic := isPublic)) &&
            ReplaceById(once, n.(isPublic := isPublic)) == once
  {
    var n := Authorize(codec, notes, id, userId, VisibilityMessages).value;
    FoundAfterReplace(codec, notes, id, userId, VisibilityMessages, VisibilityMessages, n.(isPublic := isPublic));
    ReplaceTwice(notes, n.(isPublic := isPublic), n.(isPublic := isPublic));
  }

  /** Once its owner has deleted a note, every mutation of that id, by anyone,
      reports NotFound. */
  lemma DeletedNoteIsNotFound(codec: GuidCodec, notes: seq<Note>, id: string, userId: string, anyone: string, m: Messages)
    requires UniqueIds(notes)
    requires Authorize(codec, notes, id, userId, DeleteMessages).Ok?
    ensures var n := Authorize(codec, notes, id, userId, DeleteMessages).value;
            UniqueIds(RemoveById(notes, n.id)) &&
            Authorize(codec, RemoveById(notes, n.id), id, anyone, m) == Fail(NotFound(m.notFound))
  {
    var n := Authorize(codec, notes, id, userId, DeleteMessages).value;
    WhereKeepsUniqueIds(notes, AllBut(n.id));
    var rest := RemoveById(notes, n.id);
    forall j | 0 <= j < |rest| ensures rest[j].id != n.id {
      assert rest[j] in rest;
    }
  }

  /** The note service object, over the repository it is built with. */
  class NoteService {
    const repository: NoteRepository
    const codec: GuidCodec

    constructor (repository: NoteRepository, codec: GuidCodec)
      ensures this.repository == repository && this.codec == codec
    {
      this.repository := repository;
      this.codec := codec;
    }

    /** `CreateAsync`: a new private note owned by the caller. The request's
        visibility is not copied. */
    method Create(request: CreateNoteRequest, userId: string, id: Guid, now: Tick) returns (r: NoteDto)
      requires repository.Valid() && !HasId(repository.notes, id)
      modifies repository
      ensures repository.Valid()
      ensures repository.notes == old(repository.notes) + [Note(id, request.title, request.content, now, userId, false)]
      ensures r == ToDto(codec, Note(id, request.title, request.content, now, userId, false))
    {
      var note := Note(id, request.title, request.content, now, userId, false);
      repository.Create(note);
      r := ToDto(codec, note);
    }

    /** `UpdateNoteAsync`: the owner replaces title and content. */
    method UpdateNote(id: string, title: string, content: string, userId: string) returns (r: Result<()>)
      requires repository.Valid()
      modifies repository
      ensures repository.Valid()
      ensures match Authorize(codec, old(repository.notes), id, userId, UpdateMessages)
        case Fail(e) => r == Fail(e) && repository.notes == old(repository.notes)
        case Ok(n) => r == Ok(()) &&
                      repository.notes == ReplaceById(old(repository.notes), n.(title := title, content := content))
    {
      var found := Check(id, userId, UpdateMessages);
      if found.Fail? {
        return Fail(found.error);
      }
      var note := found.value.(title := title, content := content);
      repository.Update(note);
      r := Ok(());
    }

    /** `DeleteNoteAsync`: the owner removes the note. */
    method DeleteNote(id: string, userId: string) returns (r: Result<()>)
      requires repository.Valid()
      modifies repository
      ensures repository.Valid()
      ensures match Authorize(codec, old(repository.notes), id, userId, DeleteMessages)
        case Fail(e) => r == Fail(e) && repository.notes == old(repository.notes)
        case Ok(n) => r == Ok(()) && repository.notes == RemoveById(old(repository.notes), n.id) &&
                      |repository.notes| == |old(repository.notes)| - 1
    {
      var found := Check(id, userId, DeleteMessages);
      if found.Fail? {
        return Fail(found.error);
      }
      repository.Delete(found.value);
      r := Ok(());
    }

    /** `PublishNoteAsync`. */
    method PublishNote(id: string, userId: string) returns (r: Result<()>)
      requires repository.Valid()
      modifies repository
      ensures repository.Valid()
      ensures match Authorize(codec, old(repository.notes), id, userId, PublishMessages)
        case Fail(e) => r == Fail(e) && repository.notes == old(repository.notes)
        case Ok(n) => r == Ok(()) && repository.notes == ReplaceById(old(repository.notes), n.(isPublic := true))
    {
      r := SetVisibility(id, userId, true, PublishMessages);
    }

    /** `UnpublishNoteAsync`. */
    method UnpublishNote(id: string, userId: string) returns (r: Result<()>)
      requires repository.Valid()
      modifies repository
      ensures repository.Valid()
      ensures match Authorize(codec, old(repository.notes), id, userId, UnpublishMessages)
        case Fail(e) => r == Fail(e) && repository.notes == old(repository.notes)
        case Ok(n) => r == Ok(()) && repository.notes == ReplaceById(old(repository.notes), n.(isPublic := false))
    {
      r := SetVisibility(id, userId, false, UnpublishMessages);
    }

    /** `SetNotePublicStatusAsync`. */
    method SetNotePublicStatus(id: string, userId: string, isPublic: bool) returns (r: Result<()>)
      requires repository.Valid()
      modifies repository
      ensures repository.Valid()
      ensures match Authorize(codec, old(repository.notes), id, userId, VisibilityMessages)
        case Fail(e) => r == Fail(e) && repository.notes == old(repository.notes)
        case Ok(n) => r == Ok(()) && repository.notes == ReplaceById(old(repository.notes), n.(isPublic := isPublic))
    {
      r := SetVisibility(id, userId, isPublic, VisibilityMessages);
    }

    /** The body the three visibility operations share: check, set the flag,
        update. */
    method SetVisibility(id: string, userId: string, isPublic: bool, m: Messages) returns (r: Result<()>)
      requires repository.Valid()
      modifies repository
      ensures repository.Valid()
      ensures match Authorize(codec, old(repository.notes), id, userId, m)
        case Fail(e) => r == Fail(e) && repository.notes == old(repository.notes)
        case Ok(n) => r == Ok(()) && repository.notes == ReplaceById(old(repository.notes), n.(isPublic := isPublic))
    {
      var found := Check(id, userId, m);
      if found.Fail? {
        return Fail(found.error);
      }
      var note := found.value.(isPublic := isPublic);
      repository.Update(note);
      r := Ok(());
    }

    /** `Guid.TryParse`, then `GetByIdAsync`, then the owner comparison. */
    method Check(id: string, userId: string, m: Messages) returns (r: Result<Note>)
      requires repository.Valid()
      ensures r == Authorize(codec, repository.notes, id, userId, m)
    {
      var parsed := codec.parse(id);
      if parsed.None? {
        return Fail(BadRequest(InvalidNoteIdMessage));
      }
      var note := repository.GetById(parsed.value);
      if note.None? {
        return Fail(NotFound(m.notFound));
      }
      if note.value.ownerId != userId {
        return Fail(Unauthorized(m.forbidden));
      }
      r := Ok(note.value);
    }

    /** `GetPublicNotesPagedAsync`: the repository's page as DTOs, the page
        number and size as given, and the number of public notes. */
    function GetPublicNotesPaged(pageNumber: int32, pageSize: int32, sortBy: Option<string>): (r: PagedResponse)
      reads repository
      ensures r.pageNumber == pageNumber && r.pageSize == pageSize
      ensures exists s :: ListsNewestFirst(s, repository.notes, Public) &&
                          r.data == ToDtos(codec, Page(s, pageNumber, pageSize)) && r.totalRecords == |s|
    {
      var (notes, total) := repository.GetPublicNotesPaged(pageNumber, pageSize, sortBy);
      PagedResponse(ToDtos(codec, notes), pageNumber, pageSize, total)
    }

    /** `GetAllByUserIdAsync`. */
    function GetAllByUserId(userId: string): (r: seq<NoteDto>)
      reads repository
      ensures exists s :: ListsNewestFirst(s, repository.notes, OwnedBy(userId)) && r == ToDtos(codec, s)
    {
      ToDtos(codec, repository.GetAllByUserId(userId))
    }

    /** `GetPublicNotesAsync`. */
    function GetPublicNotes(): (r: seq<NoteDto>)
      reads repository
      ensures exists s :: ListsNewestFirst(s, repository.notes, Public) && r == ToDtos(codec, s)
    {
      ToDtos(codec, repository.GetPublicNotes())
    }

    /** `GetPublicNotesByUsernameAsync`: the repository's NotFound passes through. */
    function GetPublicNotesByUsername(username: string): (r: Result<seq<NoteDto>>)
      reads repository, repository.userRepository
      ensures r.Fail? <==> FindByUsername(repository.userRepository.users, username).None?
      ensures r.Fail? ==> r.error == NotFound(UserNotFoundMessage)
      ensures r.Ok? ==> exists u, s :: FindByUsername(repository.userRepository.users, username) == Some(u) &&
                                      ListsNewestFirst(s, repository.notes, PublicOwnedBy(u.id)) && r.value == ToDtos(codec, s)
    {
      match repository.GetPublicNotesByUsername(username)
      case Fail(e) => Fail(e)
      case Ok(notes) => Ok(ToDtos(codec, notes))
    }
  }
}
