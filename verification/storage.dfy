/** The shared `public` filesystem disk that holds every uploaded image. */
module Storage {
  import opened Outcomes

  /** The folders the controllers store uploads in. */
  datatype Folder = ClubLogos | StaffPhotos | StudentPhotos | EventImages

  /** A relative path on the disk. Laravel names a stored upload with a random hash;
      here the name is a serial number drawn from a counter that never goes back. */
  datatype Path = Path(folder: Folder, serial: nat)

  /** The blobs on the disk, and the number of names handed out so far. */
  datatype Disk = Disk(blobs: set<Path>, issued: nat) {

    /** No blob carries a name that has not been handed out yet. */
    predicate Valid() {
      forall p :: p in blobs ==> p.serial < issued
    }
  }

  type SharedDisk = d: Disk | d.Valid() witness Disk({}, 0)

  /** `Storage::exists`. */
  predicate Exists(d: SharedDisk, p: Path) {
    p in d.blobs
  }

  /** `p` was handed out by the naming oracle after `d` and before `d'`. */
  predicate IssuedBetween(d: SharedDisk, p: Path, d': SharedDisk) {
    d.issued <= p.serial < d'.issued
  }

  /** `$file->store(folder, 'public')`: write the upload under a name never used before
      and return that name. */
  function Put(d: SharedDisk, folder: Folder): (r: (Path, SharedDisk))
    ensures r.0.folder == folder
    ensures !Exists(d, r.0) && Exists(r.1, r.0)
    ensures IssuedBetween(d, r.0, r.1)
    ensures r.1.blobs == d.blobs + {r.0}
  {
    var p := Path(folder, d.issued);
    (p, Disk(d.blobs + {p}, d.issued + 1))
  }

  /** `Storage::delete`: deleting a missing path does nothing and reports nothing. */
  function Delete(d: SharedDisk, p: Path): (r: SharedDisk)
    ensures !Exists(r, p)
    ensures forall q :: q != p ==> (Exists(r, q) <==> Exists(d, q))
    ensures r.issued == d.issued
  {
    Disk(d.blobs - {p}, d.issued)
  }

  /** Delete every path of `ps`, in any order (deletes commute). */
  function DeleteAll(d: SharedDisk, ps: set<Path>): (r: SharedDisk)
    ensures forall q :: Exists(r, q) <==> Exists(d, q) && q !in ps
    ensures r.issued == d.issued
  {
    Disk(d.blobs - ps, d.issued)
  }

  /** The replace-or-keep rule of an image field whose value was `before`.
      Without an upload the field and the disk stay as they were. With an upload the
      old blob (if any) is gone, a freshly named blob in `folder` is added, and the
      field holds the fresh name. */
  predicate ReplacedOrKept(d: SharedDisk, before: Option<Path>, upload: bool, folder: Folder,
                           after: Option<Path>, d': SharedDisk)
  {
    if upload then
      && after.Some?
      && after.value.folder == folder
      && IssuedBetween(d, after.value, d')
      && d'.blobs == (d.blobs - OptionSet(before)) + {after.value}
    else
      after == before && d' == d
  }

  /** Store an optional upload: `$file ? $file->store(...) : null`. */
  function PutIfPresent(d: SharedDisk, upload: bool, folder: Folder): (r: (Option<Path>, SharedDisk))
    ensures ReplacedOrKept(d, None, upload, folder, r.0, r.1)
  {
    if upload then
      var (p, d1) := Put(d, folder);
      (Some(p), d1)
    else
      (None, d)
  }

  /** The replace-or-keep code of the club logo, staff photo and student photos:
      `if (hasFile) { if (old) delete(old); field = store(...) }`. */
  function ReplaceOrKeep(d: SharedDisk, before: Option<Path>, upload: bool, folder: Folder)
    : (r: (Option<Path>, SharedDisk))
    ensures ReplacedOrKept(d, before, upload, folder, r.0, r.1)
  {
    if !upload then
      (before, d)
    else
      var d1 := if before.Some? then Delete(d, before.value) else d;
      var (p, d2) := Put(d1, folder);
      (Some(p), d2)
  }

  /** The event-image variant, which asks `Storage::exists` before deleting. */
  function ReplaceOrKeepIfExists(d: SharedDisk, before: Option<Path>, upload: bool, folder: Folder)
    : (r: (Option<Path>, SharedDisk))
    ensures ReplacedOrKept(d, before, upload, folder, r.0, r.1)
  {
    if !upload then
      (before, d)
    else
      var d1 := if before.Some? && Exists(d, before.value) then Delete(d, before.value) else d;
      var (p, d2) := Put(d1, folder);
      (Some(p), d2)
  }

  /** The `exists` guard changes nothing: both variants of the rule compute the same. */
  lemma ExistsGuardIsRedundant(d: SharedDisk, before: Option<Path>, upload: bool, folder: Folder)
    ensures ReplaceOrKeepIfExists(d, before, upload, folder) == ReplaceOrKeep(d, before, upload, folder)
  {
  }

  /** Store then delete: the blob exists in between and the disk holds the same blobs
      as before afterwards. */
  lemma PutDeleteRoundTrip(d: SharedDisk, folder: Folder)
    ensures var (p, d1) := Put(d, folder);
      && Exists(d1, p)
      && !Exists(Delete(d1, p), p)
      && Delete(d1, p).blobs == d.blobs
  {
  }
}
