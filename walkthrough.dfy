/** Clients of the note store that follow notes through their life,
    using nothing but the store's contracts and the lemmas about them. */
module Walkthrough {
  import opened Wrappers
  import opened JsValues
  import opened Schema
  import opened Notes

  /** A rejected body still uses up an id; the next note gets the one after. */
  method CreateAfterRejection(t0: string)
  {
    var store := new NoteStore();
    assert store.FindAll() == [];

    var missing := map["title" := Str("T")];
    assert Get(missing, "content") == Undefined;
    FalsyContentIsRequired(map[], missing);
    var r0 := store.Create(missing, t0);
    assert r0 == Err(Required("content"));
    assert store.FindAll() == [] && store.idCounter == 2;

    var body := map["title" := Str("A"), "content" := Str("B"), "created_at" := Str("yesterday")];
    NewNoteSpec(2, body, t0);
    var r1 := store.Create(body, t0);
    assert r1.Ok? && r1.value.id == 2;
    assert Get(r1.value.data, "created_at") == Str(t0);
    assert store.FindById(Some(2)) == Some(r1.value);
  }

  /** A partial update keeps the other fields; a bad one changes nothing. */
  method UpdateOne(t0: string, t1: string, t2: string)
  {
    var store := new NoteStore();
    var body := map["title" := Str("A"), "content" := Str("B")];
    NewNoteSpec(1, body, t0);
    var r1 := store.Create(body, t0);
    var n1 := r1.value;

    var edit := map["content" := Str("C")];
    ReviseSpec(n1, edit, t1);
    var r2 := store.Update(Some(1), edit, t1);
    var n2 := r2.value.value;
    assert Get(n2.data, "title") == Str("A") && Get(n2.data, "content") == Str("C");
    assert Get(n2.data, "created_at") == Str(t0) && Get(n2.data, "updated_at") == Str(t1);

    var bad := map["title" := Num(123)];
    NonStringTitleIsWrongType(n2.data, Spread(n2.data, bad));
    var r3 := store.Update(Some(1), bad, t2);
    assert r3 == Err(WrongType("title", "string"));
    assert store.FindById(Some(1)) == Some(n2);

    var r4 := store.Update(Some(7), edit, t2);
    assert r4 == Ok(None);
  }

  /** A deleted note is gone for good and its id is not handed out again. */
  method DeleteOne(t0: string)
  {
    var store := new NoteStore();
    var body := map["title" := Str("A"), "content" := Str("B")];
    NewNoteSpec(1, body, t0);
    var r1 := store.Create(body, t0);
    assert r1.Ok?;

    var gone := store.Delete(None);
    assert !gone;
    gone := store.Delete(Some(1));
    assert gone && store.FindById(Some(1)) == None && store.FindAll() == [];
    gone := store.Delete(Some(1));
    assert !gone;

    NewNoteSpec(2, body, t0);
    var r2 := store.Create(body, t0);
    assert r2.Ok? && r2.value.id == 2;
  }
}
