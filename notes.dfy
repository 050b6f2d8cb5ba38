/** The in-memory note store of server/models/Note.js: the module-level
    `notes` array and `idCounter`, and the static operations `create`,
    `findAll`, `findById`, `update` and `delete`. */
module Notes {
  import opened Wrappers
  import opened JsValues
  import opened Schema

  /** A stored note: its id and its data object. */
  datatype Note = Note(id: int, data: Record)

  /** The data of a stored note: only schema fields, a non-empty title and
      content, and string timestamps. */
  predicate WellFormed(d: Record)
  {
    d.Keys <= NoteFields &&
    IsText(Get(d, "title")) && IsText(Get(d, "content")) &&
    Get(d, "created_at").Str? && Get(d, "updated_at").Str?
  }

  /** The store's invariant: the counter starts at 1 and every stored id
      lies below it, stored ids are distinct, and every stored note is
      well formed. */
  predicate StoreInvariant(notes: seq<Note>, counter: int)
  {
    1 <= counter &&
    (forall i :: 0 <= i < |notes| ==> 1 <= notes[i].id < counter && WellFormed(notes[i].data)) &&
    (forall i, j :: 0 <= i < j < |notes| ==> notes[i].id != notes[j].id)
  }

  /** The position of the first note whose id equals the parsed key, or -1
      (`findIndex`); a key that did not parse (`None`) matches nothing. */
  function IndexOf(notes: seq<Note>, key: Option<int>): (i: int)
    ensures -1 <= i < |notes|
    ensures 0 <= i ==> key == Some(notes[i].id) && forall j :: 0 <= j < i ==> key != Some(notes[j].id)
    ensures i == -1 <==> forall j :: 0 <= j < |notes| ==> key != Some(notes[j].id)
  {
    if notes == [] then -1
    else if key == Some(notes[0].id) then 0
    else
      var k := IndexOf(notes[1..], key);
      if k == -1 then -1 else k + 1
  }

  /** `notes.splice(i, 1)`: the sequence without its `i`-th element, the
      others in their order. */
  function RemoveAt(notes: seq<Note>, i: int): (r: seq<Note>)
    requires 0 <= i < |notes|
    ensures |r| == |notes| - 1
    ensures forall j :: 0 <= j < i ==> r[j] == notes[j]
    ensures forall j :: i <= j < |r| ==> r[j] == notes[j + 1]
  {
    notes[..i] + notes[i + 1..]
  }

  /** The note the constructor builds for id `id`: the input validated from
      an empty record, then both timestamps set to `now`. */
  function NewNote(id: int, fields: Record, now: string): Result<Note, ValidationError>
  {
    match Validate(NoteSchema, map[], fields)
    case Err(e) => Err(e)
    case Ok(d) => Ok(Note(id, d["created_at" := Str(now)]["updated_at" := Str(now)]))
  }

  /** What `update` makes of a found note: its data overlaid with the
      input, revalidated from its current data, and `updated_at` set to
      `now`. */
  function Revise(n: Note, fields: Record, now: string): Result<Note, ValidationError>
  {
    match Validate(NoteSchema, n.data, Spread(n.data, fields))
    case Err(e) => Err(e)
    case Ok(d) => Ok(Note(n.id, d["updated_at" := Str(now)]))
  }

  /** A note is created exactly when title and content are non-empty
      strings and each given timestamp is a string. The new note has the
      given id, the input's title and content, both timestamps equal to
      `now` whatever the input said, and well-formed data; a failure is
      the validator's error. */
  lemma NewNoteSpec(id: int, fields: Record, now: string)
    ensures NewNote(id, fields, now).Ok? <==>
              IsText(Get(fields, "title")) && IsText(Get(fields, "content")) &&
              IsOptionalText(Get(fields, "created_at")) && IsOptionalText(Get(fields, "updated_at"))
    ensures NewNote(id, fields, now).Err? ==>
              Validate(NoteSchema, map[], fields) == Err(NewNote(id, fields, now).error)
    ensures NewNote(id, fields, now).Ok? ==>
              var n := NewNote(id, fields, now).value;
              n.id == id && WellFormed(n.data) && n.data.Keys == NoteFields &&
              Get(n.data, "title") == Get(fields, "title") &&
              Get(n.data, "content") == Get(fields, "content") &&
              Get(n.data, "created_at") == Str(now) && Get(n.data, "updated_at") == Str(now)
  {
    NoteValidation(map[], fields);
  }

  /** An update of a well-formed note succeeds exactly when the merged
      record passes the schema. The result keeps the id, is well formed,
      has `updated_at` equal to `now`, and each of title, content and
      `created_at` takes the input's value when the input defines it and
      keeps its stored value otherwise: omitted fields are not required
      again, and a supplied `created_at` replaces the stored one. */
  lemma ReviseSpec(n: Note, fields: Record, now: string)
    requires WellFormed(n.data)
    ensures var merged := Spread(n.data, fields);
            Revise(n, fields, now).Ok? <==>
              IsText(Get(merged, "title")) && IsText(Get(merged, "content")) &&
              IsOptionalText(Get(merged, "created_at")) && IsOptionalText(Get(merged, "updated_at"))
    ensures Revise(n, fields, now).Ok? ==>
              var n' := Revise(n, fields, now).value;
              n'.id == n.id && WellFormed(n'.data) &&
              Get(n'.data, "updated_at") == Str(now) &&
              forall k :: k in {"title", "content", "created_at"} ==>
                Get(n'.data, k) == if Get(fields, k) != Undefined then Get(fields, k) else Get(n.data, k)
  {
    NoteValidation(n.data, Spread(n.data, fields));
  }

  /** An update that supplies no schema field always succeeds and changes
      nothing but `updated_at`. */
  lemma ReviseWithoutFields(n: Note, fields: Record, now: string)
    requires WellFormed(n.data)
    requires forall k :: k in NoteFields ==> k !in fields
    ensures Revise(n, fields, now) == Ok(Note(n.id, n.data["updated_at" := Str(now)]))
  {
    var merged := Spread(n.data, fields);
    NoteValidation(n.data, merged);
    var d := Validate(NoteSchema, n.data, merged).value;
    assert d == n.data;
  }

  /** Creating keeps the invariant: the new note gets the counter's value,
      which no stored note has, and the counter moves past it. */
  lemma CreateKeepsInvariant(notes: seq<Note>, counter: int, fields: Record, now: string)
    requires StoreInvariant(notes, counter)
    requires NewNote(counter, fields, now).Ok?
    ensures StoreInvariant(notes + [NewNote(counter, fields, now).value], counter + 1)
  {
    NewNoteSpec(counter, fields, now);
  }

  /** A note appended with an id above every stored one is what a lookup
      of that id finds. */
  lemma {:induction false} IndexOfAppended(notes: seq<Note>, n: Note)
    requires forall j :: 0 <= j < |notes| ==> notes[j].id < n.id
    ensures IndexOf(notes + [n], Some(n.id)) == |notes|
  {
    var all := notes + [n];
    assert all[|notes|] == n;
    forall j | 0 <= j < |notes| ensures Some(n.id) != Some(all[j].id) {
      assert all[j] == notes[j];
    }
  }

  /** Revising a stored note keeps the invariant: its id is unchanged and
      its data stays well formed. */
  lemma ReviseKeepsInvariant(notes: seq<Note>, counter: int, i: int, fields: Record, now: string)
    requires StoreInvariant(notes, counter)
    requires 0 <= i < |notes|
    requires Revise(notes[i], fields, now).Ok?
    ensures StoreInvariant(notes[i := Revise(notes[i], fields, now).value], counter)
  {
    ReviseSpec(notes[i], fields, now);
  }

  /** Replacing a note by one with the same id leaves every lookup finding
      the same position. */
  lemma {:induction false} IndexOfAfterReplace(notes: seq<Note>, i: int, n: Note, key: Option<int>)
    requires 0 <= i < |notes| && n.id == notes[i].id
    ensures IndexOf(notes[i := n], key) == IndexOf(notes, key)
  {
    var after := notes[i := n];
    forall j | 0 <= j < |notes| ensures (key == Some(after[j].id)) == (key == Some(notes[j].id)) {
      if j != i { assert after[j] == notes[j]; }
    }
  }

  /** Removing a stored note keeps the invariant. */
  lemma DeleteKeepsInvariant(notes: seq<Note>, counter: int, i: int)
    requires StoreInvariant(notes, counter)
    requires 0 <= i < |notes|
    ensures StoreInvariant(RemoveAt(notes, i), counter)
  {
    var r := RemoveAt(notes, i);
    forall a, b | 0 <= a < b < |r| ensures r[a].id != r[b].id {
      var a' := if a < i then a else a + 1;
      var b' := if b < i then b else b + 1;
      assert r[a] == notes[a'] && r[b] == notes[b'];
    }
  }

  /** Once the note a key finds is removed, the key finds nothing: ids are
      distinct, so no other note carried it. */
  lemma IndexOfAfterRemove(notes: seq<Note>, counter: int, key: Option<int>)
    requires StoreInvariant(notes, counter)
    requires IndexOf(notes, key) >= 0
    ensures IndexOf(RemoveAt(notes, IndexOf(notes, key)), key) == -1
  {
    var i := IndexOf(notes, key);
    var r := RemoveAt(notes, i);
    forall j | 0 <= j < |r| ensures key != Some(r[j].id) {
      assert r[j] == notes[if j < i then j else j + 1];
    }
  }

  /** Removing the note at `i` leaves every lookup that did not find it
      finding the same note, one place earlier if it stood after `i`. */
  lemma IndexOfOtherAfterRemove(notes: seq<Note>, i: int, other: Option<int>)
    requires 0 <= i < |notes|
    requires IndexOf(notes, other) != i
    ensures var k := IndexOf(notes, other);
            IndexOf(RemoveAt(notes, i), other) == if k < i then k else k - 1
  {
    var r := RemoveAt(notes, i);
    var k := IndexOf(notes, other);
    var want := if k < i then k else k - 1;
    forall j | 0 <= j < |r| ensures r[j] == notes[if j < i then j else j + 1] {
    }
    if k == -1 {
      assert forall j :: 0 <= j < |r| ==> other != Some(r[j].id);
    } else {
      assert r[want] == notes[k];
      assert forall j :: 0 <= j < want ==> other != Some(r[j].id);
    }
  }

  /** The store: the collection in insertion order and the id counter. */
  class NoteStore {
    var notes: seq<Note>
    var idCounter: int

    ghost predicate Valid()
      reads this
    {
      StoreInvariant(notes, idCounter)
    }

    /** A fresh store: no notes, and the counter at 1. */
    constructor ()
      ensures Valid()
      ensures notes == [] && idCounter == 1
    {
      notes := [];
      idCounter := 1;
    }

    /** `findAll`: the stored notes themselves, in insertion order. */
    function FindAll(): (r: seq<Note>)
      reads this
      ensures r == notes
    {
      notes
    }

    /** `findById`: the first note whose id equals the parsed key, or
        `None` (JavaScript `null`) when no note has it. */
    function FindById(key: Option<int>): (r: Option<Note>)
      reads this
      ensures r.None? <==> forall j :: 0 <= j < |notes| ==> key != Some(notes[j].id)
      ensures r.Some? ==>
                exists j :: 0 <= j < |notes| && r.value == notes[j] && key == Some(notes[j].id) &&
                            forall i :: 0 <= i < j ==> key != Some(notes[i].id)
    {
      var i := IndexOf(notes, key);
      if i < 0 then None else Some(notes[i])
    }

    /** `create`: the counter is consumed first, so a rejected input still
        uses up an id. On success the new note is appended, carries the old
        counter value as its id (above every stored id) and is what a lookup
        of that id finds; on failure the collection is unchanged. */
    method Create(fields: Record, now: string) returns (r: Result<Note, ValidationError>)
      requires Valid()
      modifies this
      ensures Valid()
      ensures idCounter == old(idCounter) + 1
      ensures r == NewNote(old(idCounter), fields, now)
      ensures r.Err? ==> notes == old(notes)
      ensures r.Ok? ==> notes == old(notes) + [r.value]
      ensures r.Ok? ==> forall j :: 0 <= j < |old(notes)| ==> old(notes)[j].id < r.value.id
      ensures r.Ok? ==> FindById(Some(r.value.id)) == Some(r.value)
    {
      var id := idCounter;
      idCounter := idCounter + 1;
      var validated := ValidateFields(map[], fields);
      if validated.Err? {
        return Err(validated.error);
      }
      var data := validated.value["created_at" := Str(now)];
      data := data["updated_at" := Get(data, "created_at")];
      var note := Note(id, data);
      assert NewNote(id, fields, now) == Ok(note);
      CreateKeepsInvariant(notes, id, fields, now);
      IndexOfAppended(notes, note);
      notes := notes + [note];
      r := Ok(note);
    }

    /** `update`: an unknown key yields `None` and changes nothing. Otherwise
        the found note is revised; a rejected merge leaves the collection
        unchanged, and an accepted one replaces that note in place, leaving
        every other note, the order and the counter as they were. */
    method Update(key: Option<int>, fields: Record, now: string) returns (r: Result<Option<Note>, ValidationError>)
      requires Valid()
      modifies this
      ensures Valid()
      ensures idCounter == old(idCounter)
      ensures IndexOf(old(notes), key) == -1 ==> r == Ok(None) && notes == old(notes)
      ensures IndexOf(old(notes), key) >= 0 ==>
                var i := IndexOf(old(notes), key);
                match Revise(old(notes)[i], fields, now)
                case Err(e) => r == Err(e) && notes == old(notes)
                case Ok(n) => r == Ok(Some(n)) && notes == old(notes)[i := n]
      ensures r.Ok? && r.value.Some? ==> FindById(key) == r.value
    {
      var found := FindById(key);
      if found.None? {
        return Ok(None);
      }
      var note := found.value;
      var validated := ValidateFields(note.data, Spread(note.data, fields));
      if validated.Err? {
        return Err(validated.error);
      }
      var updated := Note(note.id, validated.value["updated_at" := Str(now)]);
      var i := IndexOf(notes, key);
      assert Revise(notes[i], fields, now) == Ok(updated);
      ReviseKeepsInvariant(notes, idCounter, i, fields, now);
      IndexOfAfterReplace(notes, i, updated, key);
      notes := notes[i := updated];
      r := Ok(Some(updated));
    }

    /** `delete`: an unknown key yields false and changes nothing. Otherwise
        exactly the found note is removed, the rest keep their order, the
        counter is untouched, and the key finds nothing afterwards. */
    method Delete(key: Option<int>) returns (deleted: bool)
      requires Valid()
      modifies this
      ensures Valid()
      ensures idCounter == old(idCounter)
      ensures deleted <==> IndexOf(old(notes), key) >= 0
      ensures !deleted ==> notes == old(notes)
      ensures deleted ==> notes == RemoveAt(old(notes), IndexOf(old(notes), key))
      ensures FindById(key) == None
    {
      var index := IndexOf(notes, key);
      if index == -1 {
        return false;
      }
      DeleteKeepsInvariant(notes, idCounter, index);
      IndexOfAfterRemove(notes, idCounter, key);
      notes := RemoveAt(notes, index);
      deleted := true;
    }
  }
}
