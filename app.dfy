/** The client's state machine: the module-level variables currentUser, notes
    and editingNoteId, the browser's localStorage, and the handlers that change
    them (login, logout, load, save, delete, edit, submit, render). */
module App {
  import opened Wrappers
  import opened Notes
  import opened Drafts
  import opened Recency

  /** A value held in localStorage, classified by what JSON.parse makes of it. */
  datatype Stored =
    | UserRecord(user: User)      // the serialization of a User
    | NoteList(notes: seq<Note>)  // the serialization of an array of notes
    | Unparsable(raw: string)     // a string JSON.parse rejects (or the empty string)
    | OtherJson(raw: string)      // any other JSON text: null, a number, an array of non-notes, ...

  const CurrentUserKey: string := "currentUser"

  /** The key a user's notes are stored under: the prefix "notes_" followed
      by the id, which can be read back from it; never the session key. */
  function NotesKey(userId: string): (key: string)
    ensures |key| == 6 + |userId| && key[..6] == "notes_" && key[6..] == userId
    ensures key != CurrentUserKey
  {
    var key := "notes_" + userId;
    assert key[0] != CurrentUserKey[0];
    key
  }

  /** Different users have different note keys, and no note key is the
      session key. */
  lemma NotesKeyDistinct(a: string, b: string)
    ensures NotesKey(a) == NotesKey(b) <==> a == b
    ensures NotesKey(a) != CurrentUserKey
  {
    if NotesKey(a) == NotesKey(b) {
      assert a == NotesKey(a)[6..] && b == NotesKey(b)[6..];
    }
    assert NotesKey(a)[0] != CurrentUserKey[0];
  }

  /** What loadNotes makes of a key: a note array, or Unreadable when the
      value is not one. */
  datatype Reading = Found(notes: seq<Note>) | Unreadable

  /** `getItem` followed by `savedNotes ? JSON.parse(savedNotes) : []`: an
      absent key and the (falsy) empty string read as no notes, a stored note
      array reads as itself, and a string JSON.parse rejects is Unreadable.
      Parseable values that are not note arrays are Unreadable too: the model
      cannot hold the value the code would assign. Any non-empty reading comes
      from a note array stored under the key. */
  function ReadNotes(storage: map<string, Stored>, key: string): (r: Reading)
    ensures r.Found? <==> key !in storage || storage[key].NoteList? || storage[key] == Unparsable("")
    ensures key in storage && storage[key].NoteList? ==> r == Found(storage[key].notes)
    ensures r.Found? && r.notes != [] ==> key in storage && storage[key] == NoteList(r.notes)
  {
    if key !in storage then Found([])
    else match storage[key]
      case NoteList(s) => Found(s)
      case Unparsable(raw) => if raw == "" then Found([]) else Unreadable
      case OtherJson(_) => Unreadable
      case UserRecord(_) => Unreadable
  }

  /** Writing the session key does not change what a user's note key reads. */
  lemma {:induction false} SessionWriteKeepsNotes(storage: map<string, Stored>, v: Stored, userId: string)
    ensures ReadNotes(storage[CurrentUserKey := v], NotesKey(userId)) == ReadNotes(storage, NotesKey(userId))
  {
    NotesKeyDistinct(userId, userId);
  }

  /** The keys handleLogout removes: the session key, and the note key built
      from the already cleared user, which is "notes_". A user with a non-empty
      id keeps their notes in storage; only the empty id loses them. */
  lemma {:induction false} LogoutKeepsStoredNotes(storage: map<string, Stored>, userId: string)
    ensures userId != "" ==>
      ReadNotes(storage - {CurrentUserKey, NotesKey("")}, NotesKey(userId)) == ReadNotes(storage, NotesKey(userId))
    ensures ReadNotes(storage - {CurrentUserKey, NotesKey("")}, NotesKey("")) == Found([])
  {
    NotesKeyDistinct(userId, "");
  }

  /** `currentUser?.id || ''` */
  function IdOrEmpty(user: Option<User>): (id: string)
    ensures id == "" <==> user.None? || user.value.id == ""
  {
    if user.Some? then user.value.id else ""
  }

  /** The toast an operation shows, named by its type argument
      ('success', 'error', 'warning', 'info'); NoNotice when it shows none. */
  datatype Notice = NoNotice | SuccessNotice | ErrorNotice | WarningNotice | InfoNotice

  class NoteApp {
    var currentUser: Option<User>
    var notes: seq<Note>
    var editingNoteId: Option<string>
    var storage: map<string, Stored>

    /** The page as loaded, over whatever localStorage already holds. */
    constructor (saved: map<string, Stored>)
      ensures currentUser == None && notes == [] && editingNoteId == None && storage == saved
    {
      currentUser := None;
      notes := [];
      editingNoteId := None;
      storage := saved;
    }

    /** While someone is logged in, reloading their notes from storage gives
        back the array held in memory. */
    ghost predicate Synced()
      reads this
    {
      currentUser.Some? ==> ReadNotes(storage, NotesKey(currentUser.value.id)) == Found(notes)
    }

    /** loadNotes: with no user the id lookup throws and nothing changes; a
        stored note array replaces the array (an absent key gives []); text
        JSON.parse rejects makes it throw and leaves the array as it was. Other
        parseable values are treated the same way, which the code does not do. */
    method LoadNotes() returns (notice: Notice)
      modifies this
      ensures currentUser == old(currentUser) && editingNoteId == old(editingNoteId)
      ensures storage == old(storage)
      ensures currentUser.None? ==> notes == old(notes) && notice == ErrorNotice
      ensures currentUser.Some? && ReadNotes(storage, NotesKey(currentUser.value.id)).Found? ==>
        notes == ReadNotes(storage, NotesKey(currentUser.value.id)).notes && notice == NoNotice
      ensures currentUser.Some? && ReadNotes(storage, NotesKey(currentUser.value.id)).Unreadable? ==>
        notes == old(notes) && notice == ErrorNotice
      ensures currentUser.Some? && notice == NoNotice ==> Synced()
    {
      if currentUser.None? {
        return ErrorNotice;
      }
      var key := NotesKey(currentUser.value.id);
      if key in storage && storage[key] != Unparsable("") {
        match storage[key]
        case NoteList(s) =>
          notes := s;
          notice := NoNotice;
        case _ =>
          notice := ErrorNotice;
      } else {
        notes := [];
        notice := NoNotice;
      }
    }

    /** handleLogin once the identity exists: the user becomes current, is
        written under the session key, and their notes are loaded (the load's
        own toast is `loadNotice`). */
    method HandleLogin(user: User) returns (loadNotice: Notice, notice: Notice)
      modifies this
      ensures currentUser == Some(user) && editingNoteId == old(editingNoteId)
      ensures storage == old(storage)[CurrentUserKey := UserRecord(user)]
      ensures ReadNotes(old(storage), NotesKey(user.id)).Found? ==>
        notes == ReadNotes(old(storage), NotesKey(user.id)).notes && loadNotice == NoNotice && Synced()
      ensures ReadNotes(old(storage), NotesKey(user.id)).Unreadable? ==>
        notes == old(notes) && loadNotice == ErrorNotice
      ensures notice == SuccessNotice
    {
      currentUser := Some(user);
      storage := storage[CurrentUserKey := UserRecord(user)];
      SessionWriteKeepsNotes(old(storage), UserRecord(user), user.id);
      loadNotice := LoadNotes();
      notice := SuccessNotice;
    }

    /** handleLogout as written: the user is cleared first, so the note key it
        removes is "notes_" and the user's own notes stay in storage; the array
        is emptied, and edit mode is left as it was. */
    method HandleLogout() returns (notice: Notice)
      modifies this
      ensures currentUser == None && notes == [] && editingNoteId == old(editingNoteId)
      ensures storage == old(storage) - {CurrentUserKey, NotesKey("")}
      ensures notice == SuccessNotice
    {
      currentUser := None;
      storage := storage - {CurrentUserKey};
      storage := storage - {NotesKey(IdOrEmpty(currentUser))};
      notes := [];
      notice := SuccessNotice;
    }

    /** The state saveNote leaves when a user is logged in: the array is the
        upsert of the old one, a set edit mode is cleared, the whole array is
        written under the user's key, and a toast shows unless an edit missed. */
    twostate predicate SaveEffect(title: string, content: string, now: int, stamp: string, notice: Notice)
      reads this
    {
      && currentUser == old(currentUser)
      && currentUser.Some?
      && notes == Upsert(old(notes), old(editingNoteId), title, content, currentUser.value.id, now, "note_" + stamp)
      && editingNoteId == (if IsEditing(old(editingNoteId)) then None else old(editingNoteId))
      && storage == old(storage)[NotesKey(currentUser.value.id) := NoteList(notes)]
      && notice == (if !IsEditing(old(editingNoteId)) || old(editingNoteId).value in Ids(old(notes))
                    then SuccessNotice else NoNotice)
    }

    /** saveNote. The new note's id is "note_" followed by `stamp`, its
        timestamps `now`. With no user, reading the owner id throws before
        anything changes. Afterwards storage agrees with memory, and ids stay
        unique when the created id is fresh. */
    method SaveNote(title: string, content: string, now: int, stamp: string) returns (notice: Notice)
      modifies this
      ensures old(currentUser).None? ==>
        && currentUser == None && notes == old(notes) && editingNoteId == old(editingNoteId)
        && storage == old(storage) && notice == ErrorNotice
      ensures old(currentUser).Some? ==> SaveEffect(title, content, now, stamp, notice) && Synced()
      ensures old(UniqueIds(notes)) && (!IsEditing(old(editingNoteId)) ==> "note_" + stamp !in old(Ids(notes))) ==>
        UniqueIds(notes)
    {
      if currentUser.None? {
        return ErrorNotice;
      }
      var owner := currentUser.value.id;
      var id := if IsEditing(editingNoteId) then editingNoteId.value else "note_" + stamp;
      var createdAt := now;
      if IsEditing(editingNoteId) {
        var found := FindIndex(notes, editingNoteId.value);
        if found != -1 {
          createdAt := notes[found].createdAt;
        }
      }
      var note := Note(id, title, content, owner, createdAt, now);
      ghost var before, editing := notes, editingNoteId;
      if IsEditing(editingNoteId) {
        var index := FindIndex(notes, editingNoteId.value);
        notice := NoNotice;
        if index != -1 {
          notes := notes[index := note];
          notice := SuccessNotice;
        }
        editingNoteId := None;
      } else {
        notes := notes + [note];
        notice := SuccessNotice;
      }
      storage := storage[NotesKey(owner) := NoteList(notes)];
      if UniqueIds(before) && (!IsEditing(editing) ==> "note_" + stamp !in Ids(before)) {
        UpsertKeepsIdsUnique(before, editing, title, content, owner, now, "note_" + stamp);
      }
    }

    /** deleteNote. Unconfirmed, nothing changes. Confirmed, every note with the
        id is filtered out; with a user the array is then written back, and
        without one the write throws after the filter. */
    method DeleteNote(noteId: string, confirmed: bool) returns (notice: Notice)
      modifies this
      ensures currentUser == old(currentUser) && editingNoteId == old(editingNoteId)
      ensures !confirmed ==> notes == old(notes) && storage == old(storage) && notice == NoNotice
      ensures confirmed ==> notes == RemoveId(old(notes), noteId)
      ensures confirmed && currentUser.Some? ==>
        storage == old(storage)[NotesKey(currentUser.value.id) := NoteList(notes)]
        && notice == SuccessNotice && Synced()
      ensures confirmed && currentUser.None? ==> storage == old(storage) && notice == ErrorNotice
      ensures old(UniqueIds(notes)) ==> UniqueIds(notes)
    {
      if !confirmed {
        return NoNotice;
      }
      if UniqueIds(notes) {
        RemoveIdKeepsIdsUnique(notes, noteId);
      }
      notes := RemoveId(notes, noteId);
      if currentUser.None? {
        return ErrorNotice;
      }
      storage := storage[NotesKey(currentUser.value.id) := NoteList(notes)];
      notice := SuccessNotice;
    }

    /** editNote. An unknown id throws before edit mode is touched. A known id
        fills the form with the first matching note's title and content and
        enters edit mode for that id. */
    method EditNote(noteId: string) returns (notice: Notice, form: Option<Draft>)
      modifies this
      ensures currentUser == old(currentUser) && notes == old(notes) && storage == old(storage)
      ensures noteId !in Ids(notes) ==>
        editingNoteId == old(editingNoteId) && notice == ErrorNotice && form == None
      ensures noteId in Ids(notes) ==>
        && editingNoteId == Some(noteId) && notice == InfoNotice
        && form == Some(Draft(notes[FindIndex(notes, noteId)].title, notes[FindIndex(notes, noteId)].content))
    {
      var i := FindIndex(notes, noteId);
      if i == -1 {
        return ErrorNotice, None;
      }
      form := Some(Draft(notes[i].title, notes[i].content));
      editingNoteId := Some(noteId);
      notice := InfoNotice;
    }

    /** handleNoteSubmit. A draft whose title or content is blank is refused
        with a warning and saveNote is not called; otherwise the trimmed
        fields are saved. */
    method HandleNoteSubmit(title: string, content: string, now: int, stamp: string) returns (notice: Notice)
      modifies this
      ensures AllTrimmable(title) || AllTrimmable(content) ==>
        && currentUser == old(currentUser) && notes == old(notes) && editingNoteId == old(editingNoteId)
        && storage == old(storage) && notice == WarningNotice
      ensures !AllTrimmable(title) && !AllTrimmable(content) && old(currentUser).Some? ==>
        SaveEffect(Trim(title), Trim(content), now, stamp, notice)
      ensures !AllTrimmable(title) && !AllTrimmable(content) && old(currentUser).None? ==>
        && currentUser == None && notes == old(notes) && editingNoteId == old(editingNoteId)
        && storage == old(storage) && notice == ErrorNotice
    {
      var draft := ValidateDraft(title, content);
      if draft.None? {
        return WarningNotice;
      }
      notice := SaveNote(draft.value.title, draft.value.content, now, stamp);
    }

    /** The order renderNotes lists the notes in: a sorted copy, newest first,
        a permutation of the array, stable for equal instants; the array
        itself is left alone. */
    method RenderOrder() returns (view: seq<Note>)
      ensures view == ByRecency(notes)
      ensures NewestFirst(view) && multiset(view) == multiset(notes)
      ensures forall t :: TouchedAt(view, t) == TouchedAt(notes, t)
    {
      view := ByRecency(notes);
      forall t ensures TouchedAt(view, t) == TouchedAt(notes, t) {
        ByRecencyStable(notes, t);
      }
    }
  }

  /** A session on a fresh page: log in with no stored notes, add a note, log
      out, and log in again with the same identity, as a real identity
      provider would give; the note is back because logout kept it in
      storage. (The mock login issues a new id each time: see
      NewIdentityScenario.) */
  method ReloginScenario(saved: map<string, Stored>, user: User, now: int)
    returns (afterSave: seq<Note>, afterLogout: seq<Note>, afterRelogin: seq<Note>)
    requires user.id != "" && NotesKey(user.id) !in saved
    requires CurrentUserKey !in saved
    ensures afterSave == [Note("note_1", "Groceries", "milk", user.id, now, now)]
    ensures afterLogout == []
    ensures afterRelogin == afterSave
  {
    var app := new NoteApp(saved);
    var loaded, shown := app.HandleLogin(user);
    assert app.notes == [] && app.editingNoteId == None;
    assert "note_" + "1" == "note_1";
    shown := app.SaveNote("Groceries", "milk", now, "1");
    afterSave := app.notes;
    assert afterSave == [afterSave[0]];
    LogoutKeepsStoredNotes(app.storage, user.id);
    shown := app.HandleLogout();
    afterLogout := app.notes;
    loaded, shown := app.HandleLogin(user);
    afterRelogin := app.notes;
  }

  /** The same session with the mock's behaviour on the second login: a new
      identity finds no notes, while the first identity's notes stay in
      storage, orphaned. */
  method NewIdentityScenario(saved: map<string, Stored>, first: User, second: User, now: int)
    returns (afterRelogin: seq<Note>, orphaned: Reading)
    requires first.id != "" && second.id != first.id
    requires NotesKey(first.id) !in saved && NotesKey(second.id) !in saved
    requires CurrentUserKey !in saved
    ensures afterRelogin == []
    ensures orphaned == Found([Note("note_1", "Groceries", "milk", first.id, now, now)])
  {
    var app := new NoteApp(saved);
    var loaded, shown := app.HandleLogin(first);
    assert "note_" + "1" == "note_1";
    shown := app.SaveNote("Groceries", "milk", now, "1");
    assert app.notes == [app.notes[0]];
    ghost var saved1 := app.notes;
    LogoutKeepsStoredNotes(app.storage, first.id);
    NotesKeyDistinct(second.id, first.id);
    NotesKeyDistinct(second.id, "");
    shown := app.HandleLogout();
    SessionWriteKeepsNotes(app.storage, UserRecord(second), first.id);
    loaded, shown := app.HandleLogin(second);
    afterRelogin := app.notes;
    orphaned := ReadNotes(app.storage, NotesKey(first.id));
  }
}
