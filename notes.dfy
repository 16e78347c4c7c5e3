/** The note table and the pure queries over it that both revisions build with
    LINQ: `Where`, `OrderByDescending(CreatedAt)`, `Skip`/`Take`, and the
    replacement and removal of a row by key. */
module Notes {
  import opened Common

  /** A note. The revisions call the owner `UserId` or `AuthorId`; both are
      `ownerId` here. */
  datatype Note = Note(id: Guid, title: string, content: string, createdAt: Tick, ownerId: string, isPublic: bool)

  /** What the API returns for a note: the id as text, and no owner. */
  datatype NoteDto = NoteDto(id: string, title: string, content: string, createdAt: Tick, isPublic: bool)

  /** What a client sends to create a note. */
  datatype CreateNoteRequest = CreateNoteRequest(title: string, content: string, isPublic: bool)

  datatype PagedResponse = PagedResponse(data: seq<NoteDto>, pageNumber: int32, pageSize: int32, totalRecords: int)

  /** `Guid.TryParse` and `Guid.ToString()`, which the model does not define. */
  datatype GuidCodec = GuidCodec(parse: string -> Option<Guid>, format: Guid -> string)

  /** The `Where` clauses the queries use. */
  datatype Filter =
    | OwnedBy(userId: string)
    | Public
    | PublicOwnedBy(userId: string)
    | AllBut(id: Guid)

  predicate Keeps(f: Filter, n: Note) {
    match f
    case OwnedBy(u) => n.ownerId == u
    case Public => n.isPublic
    case PublicOwnedBy(u) => n.isPublic && n.ownerId == u
    case AllBut(id) => n.id != id
  }

  const NoteNotFoundMessage := "Note not found."
  const InvalidNoteIdMessage := "Invalid note ID."
  const UserNotFoundMessage := "User not found."

  predicate HasId(notes: seq<Note>, id: Guid) {
    exists i :: 0 <= i < |notes| && notes[i].id == id
  }

  /** The primary key: no two rows share an id. */
  predicate UniqueIds(notes: seq<Note>) {
    forall i, j :: 0 <= i < j < |notes| ==> notes[i].id != notes[j].id
  }

  /** The note with the given id, or none (`FirstOrDefaultAsync(n => n.Id == id)`). */
  function FindNote(notes: seq<Note>, id: Guid): (r: Option<Note>)
    ensures r.None? <==> !HasId(notes, id)
    ensures r.Some? ==> r.value in notes && r.value.id == id
  {
    match FirstWhere(notes, (n: Note) => n.id == id)
    case None => None
    case Some(i) => Some(notes[i])
  }

  /** LINQ `Where`: the notes `f` keeps, in table order. */
  function Where(notes: seq<Note>, f: Filter): (r: seq<Note>)
    ensures forall x :: x in r <==> x in notes && Keeps(f, x)
    ensures forall x :: multiset(r)[x] == if Keeps(f, x) then multiset(notes)[x] else 0
  {
    if notes == [] then []
    else
      var rest := Where(notes[1..], f);
      assert notes == [notes[0]] + notes[1..];
      if Keeps(f, notes[0]) then [notes[0]] + rest else rest
  }

  /** Newest first: `CreatedAt` never increases along the sequence. */
  predicate NewestFirst(s: seq<Note>) {
    forall i, j :: 0 <= i < j < |s| ==> s[i].createdAt >= s[j].createdAt
  }

  /** Inserts `n` before the first note that is not newer than it, so that
      among equal timestamps earlier rows stay first. */
  function InsertByDate(n: Note, s: seq<Note>): (r: seq<Note>)
    requires NewestFirst(s)
    ensures NewestFirst(r)
    ensures multiset(r) == multiset(s) + multiset{n}
    ensures |r| == |s| + 1 && (r[0] == n || (s != [] && r[0] == s[0]))
  {
    if s == [] || s[0].createdAt <= n.createdAt then [n] + s
    else
      var rest := InsertByDate(n, s[1..]);
      assert s == [s[0]] + s[1..];
      [s[0]] + rest
  }

  /** `OrderByDescending(n => n.CreatedAt)`, as a stable sort over table order. */
  function SortNewestFirst(s: seq<Note>): (r: seq<Note>)
    ensures NewestFirst(r)
    ensures multiset(r) == multiset(s)
  {
    if s == [] then []
    else
      assert s == [s[0]] + s[1..];
      InsertByDate(s[0], SortNewestFirst(s[1..]))
  }

  /** `r` lists exactly the notes of `notes` that `f` keeps, each as often as
      it is stored, newest first. */
  ghost predicate ListsNewestFirst(r: seq<Note>, notes: seq<Note>, f: Filter) {
    && NewestFirst(r)
    && (forall x :: x in r <==> x in notes && Keeps(f, x))
    && (forall x :: multiset(r)[x] == if Keeps(f, x) then multiset(notes)[x] else 0)
  }

  /** `Where(f).OrderByDescending(n => n.CreatedAt)`. */
  function Select(notes: seq<Note>, f: Filter): (r: seq<Note>)
    ensures ListsNewestFirst(r, notes, f)
    ensures |r| == |Where(notes, f)|
  {
    var kept := Where(notes, f);
    var r := SortNewestFirst(kept);
    assert |r| == |multiset(r)| == |multiset(kept)| == |kept|;
    assert forall x :: x in r <==> x in multiset(r);
    r
  }

  /** LINQ `Skip`: a non-positive count skips nothing. */
  function Skip(s: seq<Note>, n: int): (r: seq<Note>)
    ensures n <= 0 ==> r == s
    ensures 0 <= n <= |s| ==> r == s[n..]
    ensures n >= |s| ==> r == []
  {
    if n <= 0 then s else if n >= |s| then [] else s[n..]
  }

  /** LINQ `Take`: a non-positive count takes nothing. */
  function Take(s: seq<Note>, n: int): (r: seq<Note>)
    ensures n <= 0 ==> r == []
    ensures 0 <= n <= |s| ==> r == s[..n]
    ensures n >= |s| ==> r == s
  {
    if n <= 0 then [] else if n >= |s| then s else s[..n]
  }

  /** `(pageNumber - 1) * pageSize` in unchecked 32-bit arithmetic: the true
      product modulo 2^32, and the true product whenever that fits. */
  function Offset(pageNumber: int32, pageSize: int32): (r: int32)
    ensures (r as int - (pageNumber as int - 1) * pageSize as int) % 0x1_0000_0000 == 0
    ensures -0x8000_0000 <= (pageNumber as int - 1) * pageSize as int < 0x8000_0000 ==>
              r as int == (pageNumber as int - 1) * pageSize as int
  {
    var a := Wrap32(pageNumber as int - 1);
    var r := Wrap32(a as int * pageSize as int);
    WrapProduct(pageNumber as int - 1, a as int, pageSize as int, r as int);
    r
  }

  /** If `a` is congruent to `x` and `r` to `a * b` modulo 2^32, then `r` is
      congruent to `x * b`; two congruent 32-bit values are equal. */
  lemma WrapProduct(x: int, a: int, b: int, r: int)
    requires (a - x) % 0x1_0000_0000 == 0 && (r - a * b) % 0x1_0000_0000 == 0
    requires -0x8000_0000 <= r < 0x8000_0000
    ensures (r - x * b) % 0x1_0000_0000 == 0
    ensures -0x8000_0000 <= x * b < 0x8000_0000 ==> r == x * b
  {
    var M := 0x1_0000_0000;
    var q := (a - x) / M;
    var p := (r - a * b) / M;
    assert a - x == M * q;
    assert r - a * b == M * p;
    assert (a - x) * b == M * (q * b);
    assert r - x * b == M * (p + q * b);
  }

  /** `.Skip((pageNumber - 1) * pageSize).Take(pageSize)`: a contiguous run of
      the list holding at most `pageSize` notes. */
  function Page(s: seq<Note>, pageNumber: int32, pageSize: int32): (r: seq<Note>)
    ensures |r| <= if pageSize < 0 then 0 else pageSize as int
    ensures exists lo :: 0 <= lo <= |s| && r <= Skip(s, lo)
  {
    var skipped := Skip(s, Offset(pageNumber, pageSize) as int);
    var lo := |s| - |skipped|;
    assert skipped == s[lo..];
    var r := Take(skipped, pageSize as int);
    assert Skip(s, lo) == skipped;
    assert r <= Skip(s, lo);
    r
  }

  /** The position `k` clipped into a list of length `n`. */
  function Clip(k: int, n: nat): nat { if k <= 0 then 0 else if k <= n then k else n }

  /** For page numbers from one on whose offset fits in 32 bits, a page is the
      contiguous slice that starts (pageNumber-1)*pageSize notes in and holds
      at most pageSize notes. */
  lemma PageIsSlice(s: seq<Note>, pageNumber: int32, pageSize: int32)
    requires 1 <= pageNumber && 0 <= pageSize
    requires (pageNumber as int - 1) * pageSize as int < 0x8000_0000
    ensures var lo := Clip((pageNumber as int - 1) * pageSize as int, |s|);
            var hi := Clip(lo + pageSize as int, |s|);
            Page(s, pageNumber, pageSize) == s[lo..hi]
    ensures |Page(s, pageNumber, pageSize)| <= pageSize as int
  {
    OffsetOfLaterPages(pageNumber, pageSize);
    PageAtOffset(s, pageNumber, pageSize, (pageNumber as int - 1) * pageSize as int);
  }

  /** From page 1 on, an offset that fits in 32 bits is the exact,
      non-negative product. */
  lemma OffsetOfLaterPages(pageNumber: int32, pageSize: int32)
    requires 1 <= pageNumber && 0 <= pageSize
    requires (pageNumber as int - 1) * pageSize as int < 0x8000_0000
    ensures 0 <= (pageNumber as int - 1) * pageSize as int == Offset(pageNumber, pageSize) as int
  {
    NonNegativeProduct(pageNumber as int - 1, pageSize as int);
  }

  /** A page whose offset is a known non-negative value is the slice from
      there, clipped to the list. */
  lemma PageAtOffset(s: seq<Note>, pageNumber: int32, pageSize: int32, k: int)
    requires Offset(pageNumber, pageSize) as int == k && 0 <= k && 0 <= pageSize
    ensures var lo := Clip(k, |s|);
            Page(s, pageNumber, pageSize) == s[lo..Clip(lo + pageSize as int, |s|)]
    ensures |Page(s, pageNumber, pageSize)| <= pageSize as int
  {
    var lo := Clip(k, |s|);
    assert Skip(s, k) == s[lo..];
  }

  lemma NonNegativeProduct(a: int, b: int)
    requires 0 <= a && 0 <= b
    ensures 0 <= a * b
  {
  }

  /** A page number of zero or below skips nothing, so it yields the first
      pageSize notes (LINQ clamps the negative offset). */
  lemma NonPositivePageNumberGivesFirstPage(s: seq<Note>, pageNumber: int32, pageSize: int32)
    requires pageNumber <= 1 && 0 <= pageSize
    requires -0x8000_0000 <= (pageNumber as int - 1) * pageSize as int
    ensures Page(s, pageNumber, pageSize) == Take(s, pageSize as int)
  {
    var k := (pageNumber as int - 1) * pageSize as int;
    assert k <= 0 by { NonPositiveProduct(pageNumber as int - 1, pageSize as int); }
    assert Offset(pageNumber, pageSize) as int == k;
  }

  lemma NonPositiveProduct(a: int, b: int)
    requires a <= 0 && 0 <= b
    ensures a * b <= 0
  {
  }

  /** The offset is computed in 32 bits and wraps: page 2^30 + 1 of size 4
      starts at offset 2^32, which wraps to 0, so it is the first page. */
  lemma OffsetWraps(s: seq<Note>)
    ensures Offset(0x4000_0001, 4) == 0
    ensures Page(s, 0x4000_0001, 4) == Take(s, 4)
  {
  }

  /** EF Core `Update`: the row with the note's id takes the note's values; no
      other row changes. */
  function ReplaceById(notes: seq<Note>, n: Note): (r: seq<Note>)
    ensures |r| == |notes|
    ensures forall i :: 0 <= i < |notes| ==> r[i] == if notes[i].id == n.id then n else notes[i]
  {
    if notes == [] then []
    else [if notes[0].id == n.id then n else notes[0]] + ReplaceById(notes[1..], n)
  }

  /** An update keeps every row's id, so the key stays unique and the same
      ids are present. */
  lemma ReplaceKeepsIds(notes: seq<Note>, n: Note)
    requires UniqueIds(notes)
    ensures UniqueIds(ReplaceById(notes, n))
    ensures forall g :: HasId(ReplaceById(notes, n), g) <==> HasId(notes, g)
  {
    var r := ReplaceById(notes, n);
    forall g ensures HasId(r, g) <==> HasId(notes, g) {
      if HasId(notes, g) {
        var k :| 0 <= k < |notes| && notes[k].id == g;
        assert r[k].id == g;
      }
      if HasId(r, g) {
        var k :| 0 <= k < |r| && r[k].id == g;
        assert notes[k].id == g;
      }
    }
  }

  /** Two updates of the same row: the second one wins. */
  lemma ReplaceTwice(notes: seq<Note>, a: Note, b: Note)
    requires a.id == b.id
    ensures ReplaceById(ReplaceById(notes, a), b) == ReplaceById(notes, b)
  {
    var once := ReplaceById(notes, a);
    assert |ReplaceById(once, b)| == |ReplaceById(notes, b)|;
    forall i | 0 <= i < |notes| ensures ReplaceById(once, b)[i] == ReplaceById(notes, b)[i] {
      assert once[i].id == notes[i].id;
    }
  }

  /** Writing back a stored row unchanged leaves the table as it was. */
  lemma ReplaceWithStored(notes: seq<Note>, n: Note)
    requires UniqueIds(notes) && n in notes
    ensures ReplaceById(notes, n) == notes
  {
    var k :| 0 <= k < |notes| && notes[k] == n;
    forall i | 0 <= i < |notes| ensures ReplaceById(notes, n)[i] == notes[i] {
      if notes[i].id == n.id {
        assert i == k;
      }
    }
  }

  /** EF Core `Remove`: the row with that id goes; every other row stays, in
      order. */
  function RemoveById(notes: seq<Note>, id: Guid): (r: seq<Note>)
    ensures forall x :: x in r <==> x in notes && x.id != id
    ensures forall x :: multiset(r)[x] == if x.id != id then multiset(notes)[x] else 0
  {
    Where(notes, AllBut(id))
  }

  /** Filtering a table with unique ids leaves ids unique. */
  lemma {:induction false} WhereKeepsUniqueIds(notes: seq<Note>, f: Filter)
    requires UniqueIds(notes)
    ensures UniqueIds(Where(notes, f))
  {
    if notes != [] {
      var rest := Where(notes[1..], f);
      WhereKeepsUniqueIds(notes[1..], f);
      if Keeps(f, notes[0]) {
        forall j | 0 <= j < |rest| ensures rest[j].id != notes[0].id {
          assert rest[j] in notes[1..];
          var m :| 0 <= m < |notes[1..]| && notes[1..][m] == rest[j];
          assert notes[m + 1] == rest[j];
        }
        var r := [notes[0]] + rest;
        forall i, j | 0 <= i < j < |r| ensures r[i].id != r[j].id {
          if i > 0 {
            assert r[i] == rest[i - 1] && r[j] == rest[j - 1];
          }
        }
      }
    }
  }

  /** On a table with unique ids, removing a stored note takes exactly that
      note away. */
  lemma {:induction false} RemoveByIdTakesOne(notes: seq<Note>, k: nat)
    requires UniqueIds(notes) && k < |notes|
    ensures multiset(RemoveById(notes, notes[k].id)) == multiset(notes) - multiset{notes[k]}
    ensures |RemoveById(notes, notes[k].id)| == |notes| - 1
  {
    var id := notes[k].id;
    var r := RemoveById(notes, id);
    forall x ensures multiset(r)[x] == (multiset(notes) - multiset{notes[k]})[x] {
      if x.id == id {
        if x == notes[k] {
          assert multiset(notes)[x] == 1 by { OnlyOnce(notes, k); }
        } else {
          forall j | 0 <= j < |notes| ensures notes[j] != x {
            if j != k {
              assert notes[j].id != notes[k].id;
            }
          }
          assert x !in notes;
        }
      }
    }
    assert multiset(r) == multiset(notes) - multiset{notes[k]};
    assert |multiset(r)| == |multiset(notes)| - 1;
  }

  /** A row of a table with unique ids occurs once. */
  lemma {:induction false} OnlyOnce(notes: seq<Note>, k: nat)
    requires UniqueIds(notes) && k < |notes|
    ensures multiset(notes)[notes[k]] == 1
  {
    if k == 0 {
      assert notes == [notes[0]] + notes[1..];
      forall j | 0 <= j < |notes[1..]| ensures notes[1..][j] != notes[0] {
        assert notes[j + 1].id != notes[0].id;
      }
      assert notes[0] !in notes[1..];
    } else {
      assert notes == [notes[0]] + notes[1..];
      OnlyOnce(notes[1..], k - 1);
      assert notes[0] != notes[k] by { assert notes[0].id != notes[k].id; }
    }
  }

  function ToDto(codec: GuidCodec, n: Note): NoteDto {
    NoteDto(codec.format(n.id), n.title, n.content, n.createdAt, n.isPublic)
  }

  /** The AutoMapper projection of a list of notes. */
  function ToDtos(codec: GuidCodec, notes: seq<Note>): (r: seq<NoteDto>)
    ensures |r| == |notes|
    ensures forall i :: 0 <= i < |notes| ==> r[i] == ToDto(codec, notes[i])
  {
    if notes == [] then [] else [ToDto(codec, notes[0])] + ToDtos(codec, notes[1..])
  }
}
