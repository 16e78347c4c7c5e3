/** The repositories of the current revision: the note table and the user
    lookup it consults. Queries read the table; `Create`, `Update` and
    `Delete` change it. */
module Repositories {
  import opened Common
  import opened Identity
  import opened Notes

  /** The user table as `UserRepository` sees it. */
  class UserRepository {
    var users: seq<User>

    constructor (users: seq<User>)
      ensures this.users == users
    {
      this.users := users;
    }
  }

  /** The note table. */
  class NoteRepository {
    var notes: seq<Note>
    const userRepository: UserRepository

    ghost predicate Valid() reads this {
      UniqueIds(notes)
    }

    constructor (userRepository: UserRepository)
      ensures Valid() && notes == [] && this.userRepository == userRepository
    {
      notes := [];
      this.userRepository := userRepository;
    }

    /** `GetAllByUserIdAsync`: the user's notes, newest first. */
    function GetAllByUserId(userId: string): (r: seq<Note>)
      reads this
      ensures ListsNewestFirst(r, notes, OwnedBy(userId))
    {
      Select(notes, OwnedBy(userId))
    }

    /** `GetByIdAsync`: the note with that id, or none. */
    function GetById(id: Guid): (r: Option<Note>)
      reads this
      ensures r.None? <==> !HasId(notes, id)
      ensures r.Some? ==> r.value in notes && r.value.id == id
    {
      FindNote(notes, id)
    }

    /** `CreateAsync`: adds the note. */
    method Create(note: Note)
      requires Valid() && !HasId(notes, note.id)
      modifies this
      ensures Valid() && notes == old(notes) + [note]
    {
      notes := notes + [note];
    }

    /** `UpdateAsync`: the stored note with the same id takes the given values. */
    method Update(note: Note)
      requires Valid() && HasId(notes, note.id)
      modifies this
      ensures Valid() && notes == ReplaceById(old(notes), note)
    {
      notes := ReplaceById(notes, note);
    }

    /** `DeleteAsync`: removes the stored note with the same id. */
    method Delete(note: Note)
      requires Valid() && HasId(notes, note.id)
      modifies this
      ensures Valid() && notes == RemoveById(old(notes), note.id)
      ensures |notes| == |old(notes)| - 1
    {
      var k :| 0 <= k < |notes| && notes[k].id == note.id;
      RemoveByIdTakesOne(notes, k);
      WhereKeepsUniqueIds(notes, AllBut(note.id));
      notes := RemoveById(notes, note.id);
    }

    /** `GetPublicNotesByUsernameAsync`: the public notes of the first user with
        that username, newest first; NotFound when there is no such user. */
    function GetPublicNotesByUsername(username: string): (r: Result<seq<Note>>)
      reads this, userRepository
      ensures r.Fail? <==> forall i :: 0 <= i < |userRepository.users| ==> userRepository.users[i].username != username
      ensures r.Fail? ==> r.error == NotFound(UserNotFoundMessage)
      ensures r.Ok? ==> exists u :: FindByUsername(userRepository.users, username) == Some(u) &&
                                   ListsNewestFirst(r.value, notes, PublicOwnedBy(u.id))
    {
      match FindByUsername(userRepository.users, username)
      case None => Fail(NotFound(UserNotFoundMessage))
      case Some(user) => Ok(Select(notes, PublicOwnedBy(user.id)))
    }

    /** `GetPublicNotesAsync`: every public note and no private one, newest first. */
    function GetPublicNotes(): (r: seq<Note>)
      reads this
      ensures ListsNewestFirst(r, notes, Public)
    {
      Select(notes, Public)
    }

    /** `GetPublicNotesPagedAsync`: one page of the public notes, newest first,
        with the number of public notes. Every `sortBy` orders the same way. */
    function GetPublicNotesPaged(pageNumber: int32, pageSize: int32, sortBy: Option<string>): (r: (seq<Note>, int))
      reads this
      ensures exists s :: ListsNewestFirst(s, notes, Public) && r.0 == Page(s, pageNumber, pageSize) && r.1 == |s|
      ensures r.1 == |GetPublicNotes()|
    {
      var ordered := match sortBy
        case Some("created_at") => Select(notes, Public)
        case Some("created_at_desc") => Select(notes, Public)
        case _ => Select(notes, Public);
      (Page(ordered, pageNumber, pageSize), |ordered|)
    }

    /** The requested sort key has no effect on the page or the count. */
    lemma SortByIgnored(pageNumber: int32, pageSize: int32, sortBy: Option<string>, other: Option<string>)
      ensures GetPublicNotesPaged(pageNumber, pageSize, sortBy) == GetPublicNotesPaged(pageNumber, pageSize, other)
    {
    }
  }
}
