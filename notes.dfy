/** The note collection held in the module-level `notes` array: the record
    shape, the lookups saveNote and editNote make, the upsert saveNote performs
    and the filter deleteNote applies. */
module Notes {
  import opened Wrappers

  /** The session identity kept in `currentUser`. */
  datatype User = User(id: string, email: string, name: string)

  /** One note as stored. Timestamps are integers standing for the ISO-8601
      instants the client writes; `user` is the owner's id. */
  datatype Note = Note(id: string, title: string, content: string, user: string,
                       createdAt: int, updatedAt: int)

  /** `editingNoteId` as a JavaScript condition: null and the empty string are
      both falsy. */
  predicate IsEditing(editing: Option<string>) {
    editing.Some? && editing.value != ""
  }

  function Ids(s: seq<Note>): set<string> {
    set n | n in s :: n.id
  }

  predicate UniqueIds(s: seq<Note>) {
    forall i, j :: 0 <= i < j < |s| ==> s[i].id != s[j].id
  }

  /** `i` is the first position holding a note with this id. */
  predicate IsFirstWithId(s: seq<Note>, id: string, i: int) {
    0 <= i < |s| && s[i].id == id && forall k :: 0 <= k < i ==> s[k].id != id
  }

  /** Array.prototype.findIndex with `n => n.id === id`: -1 exactly when no
      note has the id, otherwise the first index that has it. */
  function FindIndex(s: seq<Note>, id: string): (r: int)
    ensures r == -1 <==> id !in Ids(s)
    ensures r != -1 ==> IsFirstWithId(s, id, r)
  {
    if s == [] then -1
    else if s[0].id == id then 0
    else
      var k := FindIndex(s[1..], id);
      assert Ids(s) == {s[0].id} + Ids(s[1..]) by {
        assert forall n :: n in s <==> n == s[0] || n in s[1..];
      }
      if k == -1 then -1 else k + 1
  }

  /** What saveNote does to the array. With no note being edited it appends a
      new note with the fresh id, stamped `now` twice. With an edited id that
      no note has, nothing changes. Otherwise the first note with that id is
      replaced by one with the same id and createdAt, the new text, the current
      owner and updatedAt `now`; every other entry stays where it was. */
  function Upsert(s: seq<Note>, editing: Option<string>, title: string, content: string,
                  owner: string, now: int, freshId: string): (r: seq<Note>)
    ensures !IsEditing(editing) ==>
      |r| == |s| + 1 && r[..|s|] == s && r[|s|] == Note(freshId, title, content, owner, now, now)
    ensures IsEditing(editing) && editing.value !in Ids(s) ==> r == s
    ensures forall i {:trigger IsFirstWithId(s, editing.value, i)} ::
      IsEditing(editing) && IsFirstWithId(s, editing.value, i) ==>
        && |r| == |s|
        && r[i] == Note(editing.value, title, content, owner, s[i].createdAt, now)
        && (forall k :: 0 <= k < |s| && k != i ==> r[k] == s[k])
  {
    if IsEditing(editing) then
      var i := FindIndex(s, editing.value);
      if i == -1 then s
      else
        var keptCreatedAt := s[i].createdAt;
        s[i := Note(editing.value, title, content, owner, keptCreatedAt, now)]
    else
      s + [Note(freshId, title, content, owner, now, now)]
  }

  /** The ids after an upsert: the fresh one is added on create, and an edit
      keeps the set of ids. */
  lemma UpsertIds(s: seq<Note>, editing: Option<string>, title: string, content: string,
                  owner: string, now: int, freshId: string)
    ensures Ids(Upsert(s, editing, title, content, owner, now, freshId))
         == if IsEditing(editing) then Ids(s) else Ids(s) + {freshId}
  {
    var r := Upsert(s, editing, title, content, owner, now, freshId);
    if !IsEditing(editing) {
      assert forall n :: n in r <==> n in s || n == r[|s|] by {
        assert r == s + [r[|s|]];
      }
    } else if editing.value in Ids(s) {
      var i := FindIndex(s, editing.value);
      forall x | x in Ids(r) ensures x in Ids(s) {
        var j :| 0 <= j < |r| && r[j].id == x;
        assert s[j].id == x;
      }
      forall x | x in Ids(s) ensures x in Ids(r) {
        var j :| 0 <= j < |s| && s[j].id == x;
        assert r[j].id == x;
      }
    }
  }

  /** Ids stay unique through an upsert when a created note's id is fresh. */
  lemma UpsertKeepsIdsUnique(s: seq<Note>, editing: Option<string>, title: string, content: string,
                             owner: string, now: int, freshId: string)
    requires UniqueIds(s)
    requires !IsEditing(editing) ==> freshId !in Ids(s)
    ensures UniqueIds(Upsert(s, editing, title, content, owner, now, freshId))
  {
    var r := Upsert(s, editing, title, content, owner, now, freshId);
    if !IsEditing(editing) {
      forall i, j | 0 <= i < j < |r| ensures r[i].id != r[j].id {
        if j == |s| { assert r[i] == s[i]; }
      }
    } else if editing.value in Ids(s) {
      var e := FindIndex(s, editing.value);
      forall i, j | 0 <= i < j < |r| ensures r[i].id != r[j].id {
        assert r[i].id == s[i].id && r[j].id == s[j].id;
      }
    }
  }

  /** Every note was updated no earlier than it was created. */
  predicate Chronological(s: seq<Note>) {
    forall i :: 0 <= i < |s| ==> s[i].createdAt <= s[i].updatedAt
  }

  /** No note was touched after `now`. */
  predicate NotAfter(s: seq<Note>, now: int) {
    forall i :: 0 <= i < |s| ==> s[i].updatedAt <= now
  }

  /** With a clock that does not run backwards, an upsert keeps
      createdAt <= updatedAt for every note and never moves an updatedAt back. */
  lemma UpsertKeepsChronology(s: seq<Note>, editing: Option<string>, title: string, content: string,
                              owner: string, now: int, freshId: string)
    requires Chronological(s) && NotAfter(s, now)
    ensures Chronological(Upsert(s, editing, title, content, owner, now, freshId))
    ensures NotAfter(Upsert(s, editing, title, content, owner, now, freshId), now)
    ensures forall i :: 0 <= i < |s| ==>
      s[i].updatedAt <= Upsert(s, editing, title, content, owner, now, freshId)[i].updatedAt
  {
    var r := Upsert(s, editing, title, content, owner, now, freshId);
    if !IsEditing(editing) {
      assert forall i :: 0 <= i < |s| ==> r[i] == s[i];
    } else if editing.value in Ids(s) {
      var e := FindIndex(s, editing.value);
      assert r[e].createdAt == s[e].createdAt;
    }
  }

  /** Array.prototype.filter with `note => note.id !== id`: exactly the notes
      with another id survive; the result equals the input exactly when no
      note has the id. */
  function RemoveId(s: seq<Note>, id: string): (r: seq<Note>)
    ensures forall n :: n in r <==> n in s && n.id != id
    ensures Ids(r) == Ids(s) - {id}
    ensures |r| <= |s|
    ensures r == s <==> id !in Ids(s)
  {
    if s == [] then []
    else
      var rest := RemoveId(s[1..], id);
      assert forall n :: n in s <==> n == s[0] || n in s[1..];
      if s[0].id == id then rest else [s[0]] + rest
  }

  /** The filter keeps order: removing from a concatenation is concatenating
      the removals. */
  lemma {:induction false} RemoveIdConcat(a: seq<Note>, b: seq<Note>, id: string)
    ensures RemoveId(a + b, id) == RemoveId(a, id) + RemoveId(b, id)
  {
    if a == [] {
      assert a + b == b;
    } else {
      assert (a + b)[0] == a[0] && (a + b)[1..] == a[1..] + b;
      RemoveIdConcat(a[1..], b, id);
    }
  }

  /** Ids stay unique through a removal. */
  lemma {:induction false} RemoveIdKeepsIdsUnique(s: seq<Note>, id: string)
    requires UniqueIds(s)
    ensures UniqueIds(RemoveId(s, id))
  {
    if s != [] {
      RemoveIdKeepsIdsUnique(s[1..], id);
      var rest := RemoveId(s[1..], id);
      if s[0].id != id {
        assert s[0].id !in Ids(rest);
        var r := [s[0]] + rest;
        forall i, j | 0 <= i < j < |r| ensures r[i].id != r[j].id {
          if i == 0 { assert r[j] in rest; }
          else { assert r[i] == rest[i - 1] && r[j] == rest[j - 1]; }
        }
      }
    }
  }
}
