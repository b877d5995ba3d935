/** The records the two controllers manage, the state they share, and the referential
    invariant between records and the blobs on the shared disk. */
module Records {
  import opened Outcomes
  import opened Tables
  import opened Storage

  /** A row of `clubs`. */
  datatype Club = Club(
    name: string,
    logo: Option<Path>,
    introduction: Option<string>,
    mission: Option<string>,
    staffName: Option<string>,
    staffEmail: Option<string>,
    staffPhoto: Option<Path>,
    yearStarted: Option<int>)

  /** A row of `student_coordinators`. */
  datatype StudentCoordinator = StudentCoordinator(clubId: Id, name: string, photo: Option<Path>)

  /** A row of `events`. */
  datatype Event = Event(
    clubId: Id,
    name: string,
    description: Option<string>,
    date: string,
    time: string,
    imagePath: Option<Path>)

  /** The database tables and the shared disk. */
  datatype State = State(
    clubs: Tbl<Club>,
    students: Tbl<StudentCoordinator>,
    events: Tbl<Event>,
    disk: SharedDisk)

  /** A field that can hold the path of an uploaded image. */
  datatype Slot = LogoOf(club: Id) | StaffPhotoOf(club: Id) | PhotoOf(student: Id) | ImageOf(event: Id)

  /** The row that owns slot `a` exists. */
  predicate Present(s: State, a: Slot) {
    match a
    case LogoOf(c) => c in s.clubs.rows
    case StaffPhotoOf(c) => c in s.clubs.rows
    case PhotoOf(t) => t in s.students.rows
    case ImageOf(e) => e in s.events.rows
  }

  /** The path slot `a` holds; a slot of a missing row holds nothing. */
  function PathAt(s: State, a: Slot): (r: Option<Path>)
    ensures !Present(s, a) ==> r == None
  {
    match a
    case LogoOf(c) => if c in s.clubs.rows then s.clubs.rows[c].logo else None
    case StaffPhotoOf(c) => if c in s.clubs.rows then s.clubs.rows[c].staffPhoto else None
    case PhotoOf(t) => if t in s.students.rows then s.students.rows[t].photo else None
    case ImageOf(e) => if e in s.events.rows then s.events.rows[e].imagePath else None
  }

  /** The folder uploads for slot `a` are stored in. */
  function FolderOf(a: Slot): Folder {
    match a
    case LogoOf(_) => ClubLogos
    case StaffPhotoOf(_) => StaffPhotos
    case PhotoOf(_) => StudentPhotos
    case ImageOf(_) => EventImages
  }

  /** Every path a record holds names a blob on the disk. */
  ghost predicate Referenced(s: State) {
    forall a :: PathAt(s, a).Some? ==> Exists(s.disk, PathAt(s, a).value)
  }

  /** No two fields hold the same path, so deleting one field's blob never strands another. */
  ghost predicate Unshared(s: State) {
    forall a, b :: PathAt(s, a).Some? && PathAt(s, a) == PathAt(s, b) ==> a == b
  }

  /** The referential invariant every action preserves. */
  ghost predicate Consistent(s: State) {
    Referenced(s) && Unshared(s)
  }

  /** The empty database and disk. */
  function Empty(): (s: State)
    ensures Consistent(s)
  {
    State(Table(map[], 1), Table(map[], 1), Table(map[], 1), Disk({}, 0))
  }

  /** Set the path held by slot `a` of an existing row; nothing else changes. */
  function WithPath(s: State, a: Slot, p: Option<Path>): (r: State)
    requires Present(s, a)
    ensures Present(r, a) && PathAt(r, a) == p
    ensures forall b :: b != a ==> PathAt(r, b) == PathAt(s, b)
    ensures r.disk == s.disk
    ensures r.clubs.rows.Keys == s.clubs.rows.Keys
    ensures r.students.rows.Keys == s.students.rows.Keys
    ensures r.events.rows.Keys == s.events.rows.Keys
  {
    match a
    case LogoOf(c) => s.(clubs := Save(s.clubs, c, s.clubs.rows[c].(logo := p)))
    case StaffPhotoOf(c) => s.(clubs := Save(s.clubs, c, s.clubs.rows[c].(staffPhoto := p)))
    case PhotoOf(t) => s.(students := Save(s.students, t, s.students.rows[t].(photo := p)))
    case ImageOf(e) => s.(events := Save(s.events, e, s.events.rows[e].(imagePath := p)))
  }

  /** Apply the replace-or-keep code to slot `a` of an existing row. */
  function ReplaceSlot(s: State, a: Slot, upload: bool): (r: State)
    requires Present(s, a)
    ensures Present(r, a)
    ensures ReplacedOrKept(s.disk, PathAt(s, a), upload, FolderOf(a), PathAt(r, a), r.disk)
    ensures forall b :: b != a ==> PathAt(r, b) == PathAt(s, b)
    ensures r == WithPath(s.(disk := r.disk), a, PathAt(r, a))
  {
    var (p, d) := ReplaceOrKeep(s.disk, PathAt(s, a), upload, FolderOf(a));
    WithPath(s.(disk := d), a, p)
  }

  /** Replace-or-keep on one slot, with every other slot left alone, preserves the
      invariant: the old blob belonged to that slot alone, and the fresh one to nobody. */
  lemma ReplacedKeepsConsistent(s: State, r: State, a: Slot, upload: bool, folder: Folder)
    requires Consistent(s)
    requires ReplacedOrKept(s.disk, PathAt(s, a), upload, folder, PathAt(r, a), r.disk)
    requires forall b :: b != a ==> PathAt(r, b) == PathAt(s, b)
    ensures Consistent(r)
  {
  }

  /** A change that leaves every slot and the disk alone preserves the invariant. */
  lemma PathsUnchangedKeepsConsistent(s: State, r: State)
    requires Consistent(s)
    requires r.disk == s.disk
    requires forall b :: PathAt(r, b) == PathAt(s, b)
    ensures Consistent(r)
  {
  }
}
