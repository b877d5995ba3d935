/** `ClubController`: creating, editing and deleting clubs together with their
    student coordinators and the images they hold. */
module ClubController {
  import opened Outcomes
  import opened Tables
  import opened Storage
  import opened Records

  /** The six plain fields of the club form. */
  datatype ClubFields = ClubFields(
    name: string,
    introduction: Option<string>,
    mission: Option<string>,
    staffName: Option<string>,
    staffEmail: Option<string>,
    yearStarted: Option<int>)

  function FieldsOf(c: Club): ClubFields {
    ClubFields(c.name, c.introduction, c.mission, c.staffName, c.staffEmail, c.yearStarted)
  }

  /** Overwrite the six plain fields, keeping both image fields. */
  function WithFields(c: Club, f: ClubFields): (r: Club)
    ensures FieldsOf(r) == f
    ensures r.logo == c.logo && r.staffPhoto == c.staffPhoto
  {
    c.(name := f.name, introduction := f.introduction, mission := f.mission,
       staffName := f.staffName, staffEmail := f.staffEmail, yearStarted := f.yearStarted)
  }

  /** A create request. `valid` stands for the validation rules, which among other
      things demand a logo upload; `staffPhoto` says whether a staff photo was uploaded. */
  datatype StoreRequest = StoreRequest(valid: bool, fields: ClubFields, staffPhoto: bool)

  /** The three parallel arrays `student_ids[]`, `student_names[]`, `student_photos[]`.
      An empty name stands for an empty or missing one. */
  datatype StudentRows = StudentRows(ids: seq<Option<int>>, names: seq<string>, photos: seq<bool>)

  /** An update request: the validation verdict, the plain fields, whether a new logo
      and a new staff photo were uploaded, and the student arrays. */
  datatype UpdateRequest = UpdateRequest(
    valid: bool,
    fields: ClubFields,
    logo: bool,
    staffPhoto: bool,
    students: StudentRows)

  /** `store`: save the logo, the optional staff photo, then create the club. */
  function Store(s: State, req: StoreRequest): (r: Result<State>)
    ensures !req.valid ==> r == Err(ValidationFailed)
    ensures req.valid ==> r.Ok?
    ensures r.Ok? ==>
      var s' := r.value;
      var k := s.clubs.nextId;
      && k !in s.clubs.rows
      && s'.clubs.rows.Keys == s.clubs.rows.Keys + {k}
      && (forall c :: c in s.clubs.rows ==> s'.clubs.rows[c] == s.clubs.rows[c])
      && FieldsOf(s'.clubs.rows[k]) == req.fields
      && s'.clubs.rows[k].logo.Some?
      && s'.clubs.rows[k].logo.value.folder == ClubLogos
      && !Exists(s.disk, s'.clubs.rows[k].logo.value)
      && (s'.clubs.rows[k].staffPhoto.Some? <==> req.staffPhoto)
      && (req.staffPhoto ==>
            && s'.clubs.rows[k].staffPhoto.value.folder == StaffPhotos
            && !Exists(s.disk, s'.clubs.rows[k].staffPhoto.value)
            && s'.clubs.rows[k].staffPhoto != s'.clubs.rows[k].logo)
      && s'.disk.blobs == s.disk.blobs + OptionSet(s'.clubs.rows[k].logo)
                                       + OptionSet(s'.clubs.rows[k].staffPhoto)
      && s'.students == s.students
      && s'.events == s.events
  {
    if !req.valid then
      Err(ValidationFailed)
    else
      var (logo, d1) := Put(s.disk, ClubLogos);
      var (staff, d2) := PutIfPresent(d1, req.staffPhoto, StaffPhotos);
      var f := req.fields;
      var club := Club(f.name, Some(logo), f.introduction, f.mission, f.staffName, f.staffEmail, staff, f.yearStarted);
      var (clubs, _) := Insert(s.clubs, club);
      Ok(s.(clubs := clubs, disk := d2))
  }

  /** The part of `update` that touches the club row: overwrite the plain fields, then
      replace-or-keep the staff photo, then the logo. */
  function SaveClub(s: State, id: Id, req: UpdateRequest): (r: State)
    requires id in s.clubs.rows
    ensures r.clubs.rows.Keys == s.clubs.rows.Keys
    ensures forall c :: c in s.clubs.rows && c != id ==> r.clubs.rows[c] == s.clubs.rows[c]
    ensures FieldsOf(r.clubs.rows[id]) == req.fields
    ensures r.students == s.students && r.events == s.events
    ensures !req.staffPhoto ==> r.clubs.rows[id].staffPhoto == s.clubs.rows[id].staffPhoto
    ensures !req.logo ==> r.clubs.rows[id].logo == s.clubs.rows[id].logo
    ensures !req.staffPhoto && !req.logo ==> r.disk == s.disk
    ensures req.staffPhoto ==>
      && r.clubs.rows[id].staffPhoto.Some?
      && r.clubs.rows[id].staffPhoto.value.folder == StaffPhotos
      && IssuedBetween(s.disk, r.clubs.rows[id].staffPhoto.value, r.disk)
    ensures req.logo ==>
      && r.clubs.rows[id].logo.Some?
      && r.clubs.rows[id].logo.value.folder == ClubLogos
      && IssuedBetween(s.disk, r.clubs.rows[id].logo.value, r.disk)
    ensures s.disk.issued <= r.disk.issued
  {
    var s1 := s.(clubs := Save(s.clubs, id, WithFields(s.clubs.rows[id], req.fields)));
    var s2 := ReplaceSlot(s1, StaffPhotoOf(id), req.staffPhoto);
    ReplaceSlot(s2, LogoOf(id), req.logo)
  }

  /** PHP truthiness of a submitted student id: absent, null and 0 are false. */
  predicate Truthy(id: Option<int>) {
    id.Some? && id.value != 0
  }

  /** `$ids[$i] ?? null`. */
  function IdAt(rows: StudentRows, i: int): Option<int> {
    if 0 <= i < |rows.ids| then rows.ids[i] else None
  }

  /** `$photos[$i] ?? null`, as "a file was uploaded at index i". */
  predicate PhotoAt(rows: StudentRows, i: int) {
    0 <= i < |rows.photos| && rows.photos[i]
  }

  /** One iteration of the student loop of `update`, for club `club`. */
  function ReconcileEntry(s: State, club: Id, id: Option<int>, name: string, photo: bool): (r: State)
    ensures r.clubs == s.clubs && r.events == s.events
    ensures Truthy(id) && id.value in s.students.rows ==>
      var t := id.value;
      && r.students.rows.Keys == s.students.rows.Keys
      && (forall u :: u in s.students.rows && u != t ==> r.students.rows[u] == s.students.rows[u])
      && r.students.rows[t].clubId == s.students.rows[t].clubId
      && r.students.rows[t].name == name
      && ReplacedOrKept(s.disk, s.students.rows[t].photo, photo, StudentPhotos, r.students.rows[t].photo, r.disk)
    ensures Truthy(id) && id.value !in s.students.rows ==> r == s
    ensures !Truthy(id) && name == "" ==> r == s
    ensures !Truthy(id) && name != "" ==>
      var k := s.students.nextId;
      && k !in s.students.rows
      && r.students.rows.Keys == s.students.rows.Keys + {k}
      && (forall u :: u in s.students.rows ==> r.students.rows[u] == s.students.rows[u])
      && r.students.rows[k].clubId == club
      && r.students.rows[k].name == name
      && ReplacedOrKept(s.disk, None, photo, StudentPhotos, r.students.rows[k].photo, r.disk)
  {
    if Truthy(id) then
      if id.value in s.students.rows then
        var t := id.value;
        var renamed := s.(students := Save(s.students, t, s.students.rows[t].(name := name)));
        ReplaceSlot(renamed, PhotoOf(t), photo)
      else
        s
    else if name != "" then
      var (p, d) := PutIfPresent(s.disk, photo, StudentPhotos);
      var (students, _) := Insert(s.students, StudentCoordinator(club, name, p));
      s.(students := students, disk := d)
    else
      s
  }

  /** Some entry at index `from` or later names student `t` by id. */
  ghost predicate Mentioned(rows: StudentRows, from: nat, t: Id) {
    exists j :: from <= j < |rows.names| && IdAt(rows, j) == Some(t)
  }

  /** The student loop of `update` from index `i` on, driven by the indices of the names
      array. */
  function Reconcile(s: State, club: Id, rows: StudentRows, i: nat): (r: State)
    decreases |rows.names| - i
    ensures r.clubs == s.clubs && r.events == s.events
    ensures s.students.rows.Keys <= r.students.rows.Keys
    ensures forall t :: t in s.students.rows ==> r.students.rows[t].clubId == s.students.rows[t].clubId
    ensures forall t :: t in r.students.rows && t !in s.students.rows ==> r.students.rows[t].clubId == club
    ensures forall t :: t in s.students.rows && !Mentioned(rows, i, t) ==> r.students.rows[t] == s.students.rows[t]
  {
    if i >= |rows.names| then
      s
    else
      var s1 := ReconcileEntry(s, club, IdAt(rows, i), rows.names[i], PhotoAt(rows, i));
      Reconcile(s1, club, rows, i + 1)
  }

  /** `update`: find the club, validate, save the club row, then run the student loop. */
  function Update(s: State, id: Id, req: UpdateRequest): (r: Result<State>)
    ensures id !in s.clubs.rows ==> r == Err(NotFound)
    ensures id in s.clubs.rows && !req.valid ==> r == Err(ValidationFailed)
    ensures id in s.clubs.rows && req.valid ==> r.Ok?
    ensures r.Ok? ==> id in s.clubs.rows && id in r.value.clubs.rows
    ensures r.Ok? ==>
      var s' := r.value;
      var before := s.clubs.rows[id];
      var after := s'.clubs.rows[id];
      && s'.clubs.rows.Keys == s.clubs.rows.Keys
      && (forall c :: c in s.clubs.rows && c != id ==> s'.clubs.rows[c] == s.clubs.rows[c])
      && FieldsOf(after) == req.fields
      && (!req.staffPhoto ==> after.staffPhoto == before.staffPhoto)
      && (req.staffPhoto ==> after.staffPhoto.Some? && !Exists(s.disk, after.staffPhoto.value))
      && (!req.logo ==> after.logo == before.logo)
      && (req.logo ==> after.logo.Some? && !Exists(s.disk, after.logo.value))
      && s'.events == s.events
      && s.students.rows.Keys <= s'.students.rows.Keys
      && (forall t :: t in s.students.rows ==> s'.students.rows[t].clubId == s.students.rows[t].clubId)
      && (forall t :: t in s'.students.rows && t !in s.students.rows ==> s'.students.rows[t].clubId == id)
  {
    if id !in s.clubs.rows then
      Err(NotFound)
    else if !req.valid then
      Err(ValidationFailed)
    else
      Ok(Reconcile(SaveClub(s, id, req), id, req.students, 0))
  }

  /** Slot `a` belongs to club `c` for the purpose of `destroy`: its logo, its staff
      photo, and the photo of each student with that `club_id`. Events are not. */
  predicate OwnedBy(s: State, a: Slot, c: Id) {
    match a
    case LogoOf(x) => x == c
    case StaffPhotoOf(x) => x == c
    case PhotoOf(t) => t in s.students.rows && s.students.rows[t].clubId == c
    case ImageOf(_) => false
  }

  /** The photo paths of the students of club `c`. */
  function StudentPhotoPaths(s: State, c: Id): set<Path> {
    set t | t in s.students.rows && s.students.rows[t].clubId == c && s.students.rows[t].photo.Some?
      :: s.students.rows[t].photo.value
  }

  /** `$club->studentCoordinators()->delete()`. */
  function StudentsOutside(students: Tbl<StudentCoordinator>, c: Id): Tbl<StudentCoordinator> {
    Table(map t | t in students.rows && students.rows[t].clubId != c :: students.rows[t], students.nextId)
  }

  /** `destroy`: delete the staff photo, the logo and every student photo, then the
      students, then the club. Events of the club are left in place. */
  function Destroy(s: State, id: Id): (r: Result<State>)
    ensures id !in s.clubs.rows ==> r == Err(NotFound)
    ensures id in s.clubs.rows ==> r.Ok?
    ensures r.Ok? ==>
      var s' := r.value;
      && s'.clubs.rows == s.clubs.rows - {id}
      && (forall t :: t in s'.students.rows <==> t in s.students.rows && s.students.rows[t].clubId != id)
      && (forall t :: t in s'.students.rows ==> s'.students.rows[t] == s.students.rows[t])
      && s'.events == s.events
      && (forall a :: OwnedBy(s, a, id) && PathAt(s, a).Some? ==> !Exists(s'.disk, PathAt(s, a).value))
      && (forall p :: Exists(s'.disk, p) ==> Exists(s.disk, p))
  {
    if id !in s.clubs.rows then
      Err(NotFound)
    else
      var club := s.clubs.rows[id];
      var d1 := if club.staffPhoto.Some? then Delete(s.disk, club.staffPhoto.value) else s.disk;
      var d2 := if club.logo.Some? then Delete(d1, club.logo.value) else d1;
      var d3 := DeleteAll(d2, StudentPhotoPaths(s, id));
      Ok(State(Remove(s.clubs, id), StudentsOutside(s.students, id), s.events, d3))
  }

  /** `store` preserves the referential invariant. */
  lemma StoreKeepsConsistent(s: State, req: StoreRequest)
    requires Consistent(s)
    ensures Store(s, req).Ok? ==> Consistent(Store(s, req).value)
  {
    if req.valid {
      var r := Store(s, req).value;
      var k := s.clubs.nextId;
      var club := r.clubs.rows[k];
      var (logo, d1) := Put(s.disk, ClubLogos);
      // The new row with no images, then with its logo, then with its staff photo.
      var s0 := s.(clubs := Insert(s.clubs, club.(logo := None, staffPhoto := None)).0);
      PathsUnchangedKeepsConsistent(s, s0);
      var s1 := s0.(clubs := Insert(s.clubs, club.(staffPhoto := None)).0, disk := d1);
      ReplacedKeepsConsistent(s0, s1, LogoOf(k), true, ClubLogos);
      ReplacedKeepsConsistent(s1, r, StaffPhotoOf(k), req.staffPhoto, StaffPhotos);
    }
  }

  /** The image part of `update` on a consistent state: an uploaded staff photo or logo
      removes the old blob and adds a fresh one the field now holds; without uploads
      neither the fields nor the blob set change; no other blob is touched. */
  lemma SaveClubImageBlobs(s: State, id: Id, req: UpdateRequest)
    requires Consistent(s) && id in s.clubs.rows
    ensures
      var before := s.clubs.rows[id];
      var r := SaveClub(s, id, req);
      var after := r.clubs.rows[id];
      && (req.staffPhoto && before.staffPhoto.Some? ==> !Exists(r.disk, before.staffPhoto.value))
      && (req.staffPhoto ==> Exists(r.disk, after.staffPhoto.value) && !Exists(s.disk, after.staffPhoto.value))
      && (req.logo && before.logo.Some? ==> !Exists(r.disk, before.logo.value))
      && (req.logo ==> Exists(r.disk, after.logo.value) && !Exists(s.disk, after.logo.value))
      && (forall p :: p !in OptionSet(before.staffPhoto) + OptionSet(before.logo)
                              + OptionSet(after.staffPhoto) + OptionSet(after.logo)
                    ==> (Exists(r.disk, p) <==> Exists(s.disk, p)))
  {
    var before := s.clubs.rows[id];
    assert PathAt(s, StaffPhotoOf(id)) == before.staffPhoto;
    assert PathAt(s, LogoOf(id)) == before.logo;
    if before.staffPhoto.Some? && before.logo.Some? {
      assert before.staffPhoto != before.logo;
    }
    var s1 := s.(clubs := Save(s.clubs, id, WithFields(s.clubs.rows[id], req.fields)));
    var s2 := ReplaceSlot(s1, StaffPhotoOf(id), req.staffPhoto);
    assert s2.disk.issued >= s.disk.issued;
  }

  /** One iteration of the student loop preserves the referential invariant. */
  lemma ReconcileEntryKeepsConsistent(s: State, club: Id, id: Option<int>, name: string, photo: bool)
    requires Consistent(s)
    ensures Consistent(ReconcileEntry(s, club, id, name, photo))
  {
    var r := ReconcileEntry(s, club, id, name, photo);
    if Truthy(id) && id.value in s.students.rows {
      var t := id.value;
      var renamed := s.(students := Save(s.students, t, s.students.rows[t].(name := name)));
      PathsUnchangedKeepsConsistent(s, renamed);
      ReplacedKeepsConsistent(renamed, r, PhotoOf(t), photo, StudentPhotos);
    } else if !Truthy(id) && name != "" {
      var k := s.students.nextId;
      var s0 := s.(students := Insert(s.students, StudentCoordinator(club, name, None)).0);
      PathsUnchangedKeepsConsistent(s, s0);
      ReplacedKeepsConsistent(s0, r, PhotoOf(k), photo, StudentPhotos);
    }
  }

  /** The whole student loop preserves the referential invariant. */
  lemma {:induction false} ReconcileKeepsConsistent(s: State, club: Id, rows: StudentRows, i: nat)
    requires Consistent(s)
    ensures Consistent(Reconcile(s, club, rows, i))
    decreases |rows.names| - i
  {
    if i < |rows.names| {
      var s1 := ReconcileEntry(s, club, IdAt(rows, i), rows.names[i], PhotoAt(rows, i));
      ReconcileEntryKeepsConsistent(s, club, IdAt(rows, i), rows.names[i], PhotoAt(rows, i));
      ReconcileKeepsConsistent(s1, club, rows, i + 1);
    }
  }

  /** `update` preserves the referential invariant. */
  lemma UpdateKeepsConsistent(s: State, id: Id, req: UpdateRequest)
    requires Consistent(s)
    ensures Update(s, id, req).Ok? ==> Consistent(Update(s, id, req).value)
  {
    if id in s.clubs.rows && req.valid {
      var s1 := s.(clubs := Save(s.clubs, id, WithFields(s.clubs.rows[id], req.fields)));
      PathsUnchangedKeepsConsistent(s, s1);
      var s2 := ReplaceSlot(s1, StaffPhotoOf(id), req.staffPhoto);
      ReplacedKeepsConsistent(s1, s2, StaffPhotoOf(id), req.staffPhoto, StaffPhotos);
      var s3 := ReplaceSlot(s2, LogoOf(id), req.logo);
      ReplacedKeepsConsistent(s2, s3, LogoOf(id), req.logo, ClubLogos);
      ReconcileKeepsConsistent(s3, id, req.students, 0);
    }
  }

  /** The number of entries from index `i` on that create a student: no truthy id and a
      non-empty name. */
  function Creations(rows: StudentRows, i: nat): nat
    decreases |rows.names| - i
  {
    if i >= |rows.names| then 0
    else (if !Truthy(IdAt(rows, i)) && rows.names[i] != "" then 1 else 0) + Creations(rows, i + 1)
  }

  /** The keys of the student table after one iteration of the loop. */
  lemma EntryKeys(s: State, club: Id, id: Option<int>, name: string, photo: bool)
    ensures var r := ReconcileEntry(s, club, id, name, photo);
      if !Truthy(id) && name != "" then
        r.students.rows.Keys == s.students.rows.Keys + {s.students.nextId} && s.students.nextId !in s.students.rows
      else
        r.students.rows.Keys == s.students.rows.Keys
  {
  }

  /** Keys that grew by one new key, then grew further. */
  lemma OneMoreKey(k0: set<Id>, k1: set<Id>, kr: set<Id>, k: Id)
    requires k1 == k0 + {k} && k !in k0 && k1 <= kr
    ensures |kr - k0| == |kr - k1| + 1
  {
  }

  /** The student loop creates exactly one student per id-less, named entry. */
  lemma {:induction false} ReconcileCreations(s: State, club: Id, rows: StudentRows, i: nat)
    ensures |Reconcile(s, club, rows, i).students.rows.Keys - s.students.rows.Keys| == Creations(rows, i)
    decreases |rows.names| - i
  {
    if i < |rows.names| {
      var creates := !Truthy(IdAt(rows, i)) && rows.names[i] != "";
      var s1 := ReconcileEntry(s, club, IdAt(rows, i), rows.names[i], PhotoAt(rows, i));
      var r := Reconcile(s1, club, rows, i + 1);
      assert Reconcile(s, club, rows, i) == r;
      assert Creations(rows, i) == (if creates then 1 else 0) + Creations(rows, i + 1);
      ReconcileCreations(s1, club, rows, i + 1);
      EntryKeys(s, club, IdAt(rows, i), rows.names[i], PhotoAt(rows, i));
      if creates {
        OneMoreKey(s.students.rows.Keys, s1.students.rows.Keys, r.students.rows.Keys, s.students.nextId);
      }
    }
  }

  /** The loop is driven by the names array alone: entries of the id and photo arrays
      at indices the names array lacks never matter. */
  lemma {:induction false} ReconcileFollowsNames(s: State, club: Id, rows1: StudentRows, rows2: StudentRows, i: nat)
    requires rows1.names == rows2.names
    requires forall j :: i <= j < |rows1.names| ==> IdAt(rows1, j) == IdAt(rows2, j)
    requires forall j :: i <= j < |rows1.names| ==> PhotoAt(rows1, j) == PhotoAt(rows2, j)
    ensures Reconcile(s, club, rows1, i) == Reconcile(s, club, rows2, i)
    decreases |rows1.names| - i
  {
    if i < |rows1.names| {
      var s1 := ReconcileEntry(s, club, IdAt(rows1, i), rows1.names[i], PhotoAt(rows1, i));
      ReconcileFollowsNames(s1, club, rows1, rows2, i + 1);
    }
  }

  /** Trailing ids and photos beyond the last name have no effect. */
  lemma TrailingEntriesIgnored(s: State, club: Id, rows: StudentRows, moreIds: seq<Option<int>>, morePhotos: seq<bool>)
    requires |rows.names| <= |rows.ids| && |rows.names| <= |rows.photos|
    ensures Reconcile(s, club, rows.(ids := rows.ids + moreIds, photos := rows.photos + morePhotos), 0)
         == Reconcile(s, club, rows, 0)
  {
    var longer := rows.(ids := rows.ids + moreIds, photos := rows.photos + morePhotos);
    ReconcileFollowsNames(s, club, longer, rows, 0);
  }

  /** The id lookup is not scoped to the club being edited: editing club `club` renames
      a student of another club, which stays in that other club. */
  lemma LookupNotScopedToClub(s: State, club: Id, t: Id, name: string)
    requires t in s.students.rows && s.students.rows[t].clubId != club
    ensures var r := ReconcileEntry(s, club, Some(t), name, false);
      r.students.rows[t] == s.students.rows[t].(name := name)
  {
  }

  /** With `student_ids = [null, 5]` and `student_names = ["Alice", "Bob"]`, "Alice" is
      created under the club and student 5 is renamed "Bob" with its photo untouched. */
  lemma AliceAndBob(s: State, club: Id)
    requires 5 in s.students.rows
    ensures
      var r := Reconcile(s, club, StudentRows([None, Some(5)], ["Alice", "Bob"], []), 0);
      var k := s.students.nextId;
      && k in r.students.rows
      && r.students.rows[k] == StudentCoordinator(club, "Alice", None)
      && r.students.rows[5] == s.students.rows[5].(name := "Bob")
      && r.disk == s.disk
  {
  }

  /** The blobs `destroy` removes are exactly those held by a slot the club owns. */
  lemma DestroyDeletesClubBlobs(s: State, id: Id, p: Path)
    requires id in s.clubs.rows
    ensures Exists(Destroy(s, id).value.disk, p)
        <==> Exists(s.disk, p) && !(exists a :: OwnedBy(s, a, id) && PathAt(s, a) == Some(p))
  {
    var r := Destroy(s, id).value;
    if Exists(s.disk, p) && !Exists(r.disk, p) {
      var club := s.clubs.rows[id];
      if club.staffPhoto == Some(p) {
        assert OwnedBy(s, StaffPhotoOf(id), id) && PathAt(s, StaffPhotoOf(id)) == Some(p);
      } else if club.logo == Some(p) {
        assert OwnedBy(s, LogoOf(id), id) && PathAt(s, LogoOf(id)) == Some(p);
      } else {
        assert p in StudentPhotoPaths(s, id);
        var t :| t in s.students.rows && s.students.rows[t].clubId == id && s.students.rows[t].photo == Some(p);
        assert OwnedBy(s, PhotoOf(t), id) && PathAt(s, PhotoOf(t)) == Some(p);
      }
    }
  }

  /** `destroy` preserves the referential invariant: what survives is not owned by the
      club, so its path was not among those deleted. */
  lemma DestroyKeepsConsistent(s: State, id: Id)
    requires Consistent(s)
    ensures Destroy(s, id).Ok? ==> Consistent(Destroy(s, id).value)
  {
    if id in s.clubs.rows {
      var r := Destroy(s, id).value;
      forall a | PathAt(r, a).Some?
        ensures PathAt(r, a) == PathAt(s, a) && !OwnedBy(s, a, id)
      {
      }
      forall a | PathAt(r, a).Some?
        ensures Exists(r.disk, PathAt(r, a).value)
      {
        var p := PathAt(r, a).value;
        DestroyDeletesClubBlobs(s, id, p);
      }
    }
  }

  /** After `destroy`, the club is gone: editing or deleting it again is a 404. */
  lemma DestroyThenNotFound(s: State, id: Id, req: UpdateRequest)
    requires Destroy(s, id).Ok?
    ensures Update(Destroy(s, id).value, id, req) == Err(NotFound)
    ensures Destroy(Destroy(s, id).value, id) == Err(NotFound)
  {
  }

  /** `destroy` does not cascade to events: an event of the deleted club survives, and
      its `club_id` now names no club. */
  lemma DestroyOrphansEvents(s: State, id: Id, e: Id)
    requires id in s.clubs.rows
    requires e in s.events.rows && s.events.rows[e].clubId == id
    ensures var r := Destroy(s, id).value;
      && e in r.events.rows
      && r.events.rows[e] == s.events.rows[e]
      && r.events.rows[e].clubId !in r.clubs.rows
  {
  }
}
