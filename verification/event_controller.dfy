/** `EventController`: creating, editing and deleting the events of a club and their
    images. */
module EventController {
  import opened Outcomes
  import opened Tables
  import opened Storage
  import opened Records

  /** The plain fields of the event form. */
  datatype EventFields = EventFields(name: string, description: Option<string>, date: string, time: string)

  function FieldsOf(e: Event): EventFields {
    EventFields(e.name, e.description, e.date, e.time)
  }

  /** A create request. `valid` stands for every rule except `exists:clubs,id`, which
      the model checks against the clubs table. */
  datatype StoreRequest = StoreRequest(valid: bool, clubId: Id, fields: EventFields, image: bool)

  /** An update request; it carries no club id. */
  datatype UpdateRequest = UpdateRequest(valid: bool, fields: EventFields, image: bool)

  /** `store`: validate (the club must exist), store the optional image, create the event. */
  function Store(s: State, req: StoreRequest): (r: Result<State>)
    ensures !req.valid || req.clubId !in s.clubs.rows <==> r == Err(ValidationFailed)
    ensures r.Ok? || r == Err(ValidationFailed)
    ensures r.Ok? ==>
      var s' := r.value;
      var k := s.events.nextId;
      && k !in s.events.rows
      && s'.events.rows.Keys == s.events.rows.Keys + {k}
      && (forall e :: e in s.events.rows ==> s'.events.rows[e] == s.events.rows[e])
      && s'.events.rows[k].clubId == req.clubId
      && req.clubId in s.clubs.rows
      && FieldsOf(s'.events.rows[k]) == req.fields
      && ReplacedOrKept(s.disk, None, req.image, EventImages, s'.events.rows[k].imagePath, s'.disk)
      && s'.clubs == s.clubs
      && s'.students == s.students
  {
    if !req.valid || req.clubId !in s.clubs.rows then
      Err(ValidationFailed)
    else
      var (image, d) := PutIfPresent(s.disk, req.image, EventImages);
      var f := req.fields;
      var (events, _) := Insert(s.events, Event(req.clubId, f.name, f.description, f.date, f.time, image));
      Ok(s.(events := events, disk := d))
  }

  /** `update`: validate, find the event, replace-or-keep its image (deleting the old one
      only if it exists on disk), overwrite the plain fields. */
  function Update(s: State, id: Id, req: UpdateRequest): (r: Result<State>)
    ensures !req.valid ==> r == Err(ValidationFailed)
    ensures req.valid && id !in s.events.rows ==> r == Err(NotFound)
    ensures req.valid && id in s.events.rows ==> r.Ok?
    ensures r.Ok? ==> id in s.events.rows && id in r.value.events.rows
    ensures r.Ok? ==>
      var s' := r.value;
      var before := s.events.rows[id];
      var after := s'.events.rows[id];
      && s'.events.rows.Keys == s.events.rows.Keys
      && (forall e :: e in s.events.rows && e != id ==> s'.events.rows[e] == s.events.rows[e])
      && after.clubId == before.clubId
      && FieldsOf(after) == req.fields
      && ReplacedOrKept(s.disk, before.imagePath, req.image, EventImages, after.imagePath, s'.disk)
      && s'.clubs == s.clubs
      && s'.students == s.students
  {
    if !req.valid then
      Err(ValidationFailed)
    else if id !in s.events.rows then
      Err(NotFound)
    else
      var e := s.events.rows[id];
      var (image, d) := ReplaceOrKeepIfExists(s.disk, e.imagePath, req.image, EventImages);
      var f := req.fields;
      var e' := e.(imagePath := image, name := f.name, description := f.description, date := f.date, time := f.time);
      Ok(s.(events := Save(s.events, id, e'), disk := d))
  }

  /** `destroy`: find the event, delete its image if it exists on disk, delete the event. */
  function Destroy(s: State, id: Id): (r: Result<State>)
    ensures id !in s.events.rows ==> r == Err(NotFound)
    ensures id in s.events.rows ==> r.Ok?
    ensures r.Ok? ==>
      var s' := r.value;
      && id in s.events.rows
      && s'.events.rows == s.events.rows - {id}
      && (forall p :: Exists(s'.disk, p) <==> Exists(s.disk, p) && s.events.rows[id].imagePath != Some(p))
      && s'.clubs == s.clubs
      && s'.students == s.students
  {
    if id !in s.events.rows then
      Err(NotFound)
    else
      var e := s.events.rows[id];
      var d := if e.imagePath.Some? && Exists(s.disk, e.imagePath.value) then Delete(s.disk, e.imagePath.value) else s.disk;
      Ok(s.(events := Remove(s.events, id), disk := d))
  }

  /** `store` preserves the referential invariant. */
  lemma StoreKeepsConsistent(s: State, req: StoreRequest)
    requires Consistent(s)
    ensures Store(s, req).Ok? ==> Consistent(Store(s, req).value)
  {
    if req.valid && req.clubId in s.clubs.rows {
      var r := Store(s, req).value;
      var k := s.events.nextId;
      var s0 := s.(events := Insert(s.events, r.events.rows[k].(imagePath := None)).0);
      PathsUnchangedKeepsConsistent(s, s0);
      ReplacedKeepsConsistent(s0, r, ImageOf(k), req.image, EventImages);
    }
  }

  /** `update` preserves the referential invariant. */
  lemma UpdateKeepsConsistent(s: State, id: Id, req: UpdateRequest)
    requires Consistent(s)
    ensures Update(s, id, req).Ok? ==> Consistent(Update(s, id, req).value)
  {
    if req.valid && id in s.events.rows {
      var r := Update(s, id, req).value;
      ReplacedKeepsConsistent(s, r, ImageOf(id), req.image, EventImages);
    }
  }

  /** `destroy` preserves the referential invariant. */
  lemma DestroyKeepsConsistent(s: State, id: Id)
    requires Consistent(s)
    ensures Destroy(s, id).Ok? ==> Consistent(Destroy(s, id).value)
  {
    if id in s.events.rows {
      var r := Destroy(s, id).value;
      forall a
        ensures PathAt(r, a) == if a == ImageOf(id) then None else PathAt(s, a)
      {
      }
      forall a | PathAt(r, a).Some?
        ensures Exists(r.disk, PathAt(r, a).value)
      {
        assert PathAt(s, a) != PathAt(s, ImageOf(id));
      }
    }
  }

  /** An update without an image, repeated with the same fields, changes nothing more:
      the second call returns the state the first produced. */
  lemma UpdateIdempotent(s: State, id: Id, req: UpdateRequest)
    requires !req.image
    ensures Update(s, id, req).Ok? ==> Update(Update(s, id, req).value, id, req) == Update(s, id, req)
  {
    if req.valid && id in s.events.rows {
      var s1 := Update(s, id, req).value;
      var e1 := s1.events.rows[id];
      assert s1.events.rows[id := e1] == s1.events.rows;
      assert Update(s1, id, req).value == s1;
    }
  }
}
