/** The home page's notes, grouped by the field they belong to: the grouping
    of a fetched list and the patch applied for each realtime change. */
module Notes {
  import opened Wrappers

  /** A note on one field (`field_id`); the timestamps and author are left out. */
  datatype Note = Note(id: string, fieldId: string, text: string)

  type NotesByField = map<string, seq<Note>>

  /** The notes of the list that belong to `fid`, in list order. */
  function NotesOf(list: seq<Note>, fid: string): seq<Note>
  {
    if list == [] then []
    else
      var last := list[|list| - 1];
      NotesOf(list[..|list| - 1], fid) + (if last.fieldId == fid then [last] else [])
  }

  /** The fields that the notes of the list belong to. */
  function FieldsOf(list: seq<Note>): set<string>
  {
    if list == [] then {} else FieldsOf(list[..|list| - 1]) + {list[|list| - 1].fieldId}
  }

  /** The notes of a field are the notes of the list that carry its id, in
      list order. */
  lemma {:induction false} NotesOfMembers(list: seq<Note>, fid: string)
    ensures forall n :: n in NotesOf(list, fid) <==> n in list && n.fieldId == fid
  {
    if list != [] {
      var init := list[..|list| - 1];
      assert list == init + [list[|list| - 1]];
      NotesOfMembers(init, fid);
    }
  }

  lemma {:induction false} FieldsOfIsSet(list: seq<Note>)
    ensures FieldsOf(list) == set n | n in list :: n.fieldId
  {
    if list != [] {
      var init := list[..|list| - 1];
      assert list == init + [list[|list| - 1]];
      FieldsOfIsSet(init);
    }
  }

  /** A field no note belongs to has no notes. */
  lemma {:induction false} NotesOfAbsent(list: seq<Note>, fid: string)
    requires fid !in FieldsOf(list)
    ensures NotesOf(list, fid) == []
  {
    if list != [] {
      NotesOfAbsent(list[..|list| - 1], fid);
    }
  }

  /** The grouping loop: each note is pushed onto its field's list, which is
      created on first use. */
  method GroupNotes(list: seq<Note>) returns (byField: NotesByField)
    ensures byField.Keys == set n | n in list :: n.fieldId
    ensures forall fid :: fid in byField ==> byField[fid] == NotesOf(list, fid)
  {
    byField := map[];
    var i := 0;
    while i < |list|
      invariant 0 <= i <= |list|
      invariant byField.Keys == FieldsOf(list[..i])
      invariant forall fid :: fid in byField ==> byField[fid] == NotesOf(list[..i], fid)
    {
      var n := list[i];
      assert list[..i + 1][..i] == list[..i];
      var arr := if n.fieldId in byField then byField[n.fieldId] else [];
      if n.fieldId !in byField {
        NotesOfAbsent(list[..i], n.fieldId);
      }
      byField := byField[n.fieldId := arr + [n]];
      i := i + 1;
    }
    assert list[..i] == list;
    FieldsOfIsSet(list);
  }

  /** The realtime event kinds; only a deletion is told apart. */
  datatype EventType = InsertEvent | UpdateEvent | DeleteEvent

  /** What the handler does with a note change: patch the grouped notes, or
      fetch them all again. */
  datatype Patch = Patched(notes: NotesByField) | Refetch

  predicate HasId(arr: seq<Note>, id: string) { exists k :: 0 <= k < |arr| && arr[k].id == id }

  predicate UniqueIds(arr: seq<Note>) {
    forall i, j :: 0 <= i < j < |arr| ==> arr[i].id != arr[j].id
  }

  /** The position of the first note with the id, or -1 for none. */
  function FindIndex(arr: seq<Note>, id: string): (idx: int)
    ensures -1 <= idx < |arr|
    ensures idx == -1 <==> !HasId(arr, id)
    ensures idx >= 0 ==> arr[idx].id == id && forall k :: 0 <= k < idx ==> arr[k].id != id
  {
    if arr == [] then -1
    else if arr[0].id == id then 0
    else
      var rest := FindIndex(arr[1..], id);
      assert forall k :: 1 <= k < |arr| ==> arr[k] == arr[1..][k - 1];
      if rest == -1 then -1 else rest + 1
  }

  /** The DELETE branch: the first note with the id is spliced out, if any. */
  function RemoveNote(arr: seq<Note>, id: string): (r: seq<Note>)
    ensures !HasId(arr, id) ==> r == arr
    ensures HasId(arr, id) ==> |r| == |arr| - 1 && exists k :: 0 <= k < |arr| && arr[k].id == id && r == arr[..k] + arr[k + 1..]
  {
    var idx := FindIndex(arr, id);
    if idx == -1 then arr else arr[..idx] + arr[idx + 1..]
  }

  /** The other branch: the first note with the id is replaced in place, or
      the note is appended. */
  function UpsertNote(arr: seq<Note>, note: Note): (r: seq<Note>)
    ensures !HasId(arr, note.id) ==> r == arr + [note]
    ensures HasId(arr, note.id) ==> |r| == |arr| && exists k :: 0 <= k < |arr| && arr[k].id == note.id && r == arr[k := note]
  {
    var idx := FindIndex(arr, note.id);
    if idx == -1 then arr + [note] else arr[idx := note]
  }

  /** The note a payload carries: the new row, or else the old one. An empty
      row stands as a note with empty fields. */
  function PayloadNote(newNote: Option<Note>, oldNote: Option<Note>): Option<Note> {
    if newNote.Some? then newNote else oldNote
  }

  /** The notes state updater of the realtime handler. */
  function PatchNotes(prev: NotesByField, event: EventType, newNote: Option<Note>, oldNote: Option<Note>): (r: Patch)
    ensures var note := PayloadNote(newNote, oldNote);
            r.Refetch? <==> note.None? || note.value.fieldId == ""
    ensures r.Patched? ==> var fid := PayloadNote(newNote, oldNote).value.fieldId;
            r.notes.Keys == prev.Keys + {fid} &&
            forall other :: other in prev && other != fid ==> r.notes[other] == prev[other]
    ensures r.Patched? ==> var n := PayloadNote(newNote, oldNote).value;
            var arr := if n.fieldId in prev then prev[n.fieldId] else [];
            r.notes[n.fieldId] == if event == DeleteEvent then RemoveNote(arr, n.id) else UpsertNote(arr, n)
  {
    var note := PayloadNote(newNote, oldNote);
    if note.Some? && note.value.fieldId != "" then
      var n := note.value;
      var arr := if n.fieldId in prev then prev[n.fieldId] else [];
      var patched := if event == DeleteEvent then RemoveNote(arr, n.id) else UpsertNote(arr, n);
      Patched(prev[n.fieldId := patched])
    else Refetch
  }

  /** The copied list of the note's field after the change: the note is
      spliced out on a deletion, otherwise replaced or pushed. */
  method PatchList(arr: seq<Note>, event: EventType, n: Note) returns (r: seq<Note>)
    ensures r == if event == DeleteEvent then RemoveNote(arr, n.id) else UpsertNote(arr, n)
  {
    r := arr;
    var idx := FindIndex(r, n.id);
    if event == DeleteEvent {
      if idx != -1 {
        r := r[..idx] + r[idx + 1..];
      }
    } else {
      if idx != -1 {
        r := r[idx := n];
      } else {
        r := r + [n];
      }
    }
  }

  /** The patched list of the note's field: a deletion removes the note's
      id, anything else leaves exactly one note with that id, the new one. */
  lemma PatchedField(prev: NotesByField, event: EventType, newNote: Option<Note>, oldNote: Option<Note>)
    requires PatchNotes(prev, event, newNote, oldNote).Patched?
    requires var n := PayloadNote(newNote, oldNote).value; n.fieldId in prev ==> UniqueIds(prev[n.fieldId])
    ensures var n := PayloadNote(newNote, oldNote).value;
            var after := PatchNotes(prev, event, newNote, oldNote).notes[n.fieldId];
            UniqueIds(after) &&
            (event == DeleteEvent ==> !HasId(after, n.id)) &&
            (event != DeleteEvent ==> n in after && forall m :: m in after && m.id == n.id ==> m == n)
  {
    var n := PayloadNote(newNote, oldNote).value;
    var arr := if n.fieldId in prev then prev[n.fieldId] else [];
    if event == DeleteEvent {
      RemoveKeepsUnique(arr, n.id);
    } else {
      UpsertKeepsUnique(arr, n);
    }
  }

  /** Removing keeps the ids unique and, when they were, leaves none with the id. */
  lemma RemoveKeepsUnique(arr: seq<Note>, id: string)
    requires UniqueIds(arr)
    ensures UniqueIds(RemoveNote(arr, id)) && !HasId(RemoveNote(arr, id), id)
  {
    var idx := FindIndex(arr, id);
    if idx == -1 {
      assert RemoveNote(arr, id) == arr;
    } else {
      assert RemoveNote(arr, id) == arr[..idx] + arr[idx + 1..];
      SpliceUnique(arr, idx);
    }
  }

  lemma SpliceUnique(arr: seq<Note>, k: int)
    requires UniqueIds(arr) && 0 <= k < |arr|
    ensures UniqueIds(arr[..k] + arr[k + 1..]) && !HasId(arr[..k] + arr[k + 1..], arr[k].id)
  {
    var r := arr[..k] + arr[k + 1..];
    forall i | 0 <= i < |r| ensures r[i] == arr[Skip(i, k)] {
      if i < k { assert r[i] == arr[..k][i]; } else { assert r[i] == arr[k + 1..][i - k]; }
    }
  }

  /** The position in the original list of position `i` after the splice at `k`. */
  function Skip(i: int, k: int): int { if i < k then i else i + 1 }

  /** Replacing or appending keeps the ids unique, and the note is then the
      only one with its id. */
  lemma UpsertKeepsUnique(arr: seq<Note>, note: Note)
    requires UniqueIds(arr)
    ensures UniqueIds(UpsertNote(arr, note))
    ensures note in UpsertNote(arr, note)
    ensures forall m :: m in UpsertNote(arr, note) && m.id == note.id ==> m == note
  {
    var r := UpsertNote(arr, note);
    if HasId(arr, note.id) {
      var k :| 0 <= k < |arr| && arr[k].id == note.id && r == arr[k := note];
      assert r[k] == note;
    } else {
      assert r[|arr|] == note;
    }
  }

  /** An insert of a new note followed by its deletion restores the list. */
  lemma DeleteUndoesInsert(arr: seq<Note>, note: Note)
    requires !HasId(arr, note.id)
    ensures RemoveNote(UpsertNote(arr, note), note.id) == arr
  {
    var r := arr + [note];
    FindIndexAt(r, note.id, |arr|);
    assert r[..|arr|] == arr;
  }

  /** Receiving the same change twice is receiving it once. */
  lemma UpsertIdempotent(arr: seq<Note>, note: Note)
    ensures UpsertNote(UpsertNote(arr, note), note) == UpsertNote(arr, note)
  {
    var r := UpsertNote(arr, note);
    var idx := FindIndex(arr, note.id);
    if idx == -1 {
      FindIndexAt(r, note.id, |arr|);
    } else {
      FindIndexAt(r, note.id, idx);
    }
  }

  /** The first position holding the id is the one found. */
  lemma FindIndexAt(arr: seq<Note>, id: string, k: int)
    requires 0 <= k < |arr| && arr[k].id == id
    requires forall j :: 0 <= j < k ==> arr[j].id != id
    ensures FindIndex(arr, id) == k
  {
  }
}
