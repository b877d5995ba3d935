# Club and event records with their uploaded images

This project models the two request handlers of a school club directory,
`ClubController` and `EventController`, as pure transitions on one state:

- three database tables with auto-increment keys (`clubs`, `student_coordinators`,
  `events`; module `Tables`, entities in `Records`);
- the shared `public` disk, a set of stored image paths (module `Storage`).

Each mutating action (`store`, `update`, `destroy` of either controller) is a function
from a state and a request to `Result<State>`. `findOrFail` on an unknown id becomes
`Err(NotFound)`, and a failed validation becomes `Err(ValidationFailed)`. A rejected
request carries no state, so it changes nothing.

`$file->store(folder)` is a naming oracle. It hands out a path that was never handed out
before, in the requested folder. `Storage::delete` removes a path and ignores a missing
one. Every image field follows the replace-or-keep rule (`Storage.ReplacedOrKept`):

- with no upload, the field and the disk stay as they were;
- with an upload, the old blob is deleted, a fresh blob is stored, and the field holds it.

The student-coordinator loop of `ClubController::update` is a recursive fold over the
indices of `student_names`. The fold has these properties:

- it renames (and optionally re-photographs) a student found by id, in any club;
- it skips a truthy id that matches no student;
- it creates a student under the edited club for an id-less, non-empty name;
- it skips every other entry.

The referential invariant `Records.Consistent` holds in two parts:

- every path held by a record is a blob on the disk;
- no two fields hold the same path.

Every action preserves it (`Routes.ReachableStatesConsistent`).

Three behaviours of the code a reader may not expect:

- `EventController::update` validates the request before looking up the event, so an
  invalid request for an unknown event is a validation failure, not a 404.
- `destroy` of a club does not touch its events or their images. The events keep a
  `club_id` that names no club (`ClubController.DestroyOrphansEvents`).
- The id lookup of the student loop is not restricted to the edited club
  (`ClubController.LookupNotScopedToClub`). The student keeps its own `club_id`.

## Model

| member | source | states |
|---|---|---|
| `Storage.Put` | app/Http/Controllers/ClubController.php:39 | a stored upload gets a path in the requested folder that was not on the disk and now is; nothing else is added |
| `Storage.Delete` | app/Http/Controllers/ClubController.php:90 | after a delete the path is gone and every other path is as before, whether or not the path existed |
| `Storage.PutIfPresent` | app/Http/Controllers/ClubController.php:42-45 | an optional upload gives a fresh stored path iff a file was given, else null and an unchanged disk |
| `Storage.ReplaceOrKeep` | app/Http/Controllers/ClubController.php:88-103 | the replace-or-keep rule: without a file the field and the disk are unchanged; with one, the old blob is removed, a fresh blob is added and the field holds it |
| `Storage.ReplaceOrKeepIfExists` | app/Http/Controllers/EventController.php:53-60 | the event-image code, which checks existence before deleting, satisfies the same replace-or-keep rule |
| `Storage.ExistsGuardIsRedundant` | app/Http/Controllers/EventController.php:55-57 | the `exists` check before a delete never changes the outcome: both variants compute the same field and disk |
| `Storage.PutDeleteRoundTrip` | app/Http/Controllers/ClubController.php:39-90 | a stored blob exists; deleting it again leaves exactly the blobs there were before |
| `Records.ReplaceSlot` | app/Http/Controllers/ClubController.php:88-94 | replace-or-keep on one image field of an existing row changes that field and the disk only, as the rule says |
| `Records.ReplacedKeepsConsistent` | app/Http/Controllers/ClubController.php:88-103 | replace-or-keep on one field keeps every held path on the disk and unshared, since the old blob was held by that field alone and the new one by none |
| `ClubController.Store` | app/Http/Controllers/ClubController.php:25-56 | an invalid request fails; otherwise exactly one club is added under a new key, with the request's six fields and a fresh logo in the club-logo folder. Its staff photo is set iff one was uploaded, fresh, in the staff-photo folder and distinct from the logo. Only those one or two blobs are added, and no other club, student or event changes |
| `ClubController.StoreKeepsConsistent` | app/Http/Controllers/ClubController.php:39-56 | creating a club keeps every held path on the disk and unshared |
| `ClubController.SaveClub` | app/Http/Controllers/ClubController.php:82-105 | the six fields are overwritten from the request. Without an upload the staff photo and the logo keep their paths, and with neither the disk is unchanged. An upload gives a path in the right folder that was never handed out before; other clubs, students and events do not change |
| `ClubController.SaveClubImageBlobs` | app/Http/Controllers/ClubController.php:87-103 | on a consistent state an uploaded staff photo or logo removes the old blob from the disk and adds a fresh one the field holds; no other blob is touched |
| `ClubController.ReconcileEntry` | app/Http/Controllers/ClubController.php:113-137 | a truthy id of an existing student renames that student (club unchanged) and replaces-or-keeps its photo, and no other student changes. A truthy unknown id and an id-less empty name change nothing. An id-less name creates exactly one student of this club, with a photo iff a file was given |
| `ClubController.Reconcile` | app/Http/Controllers/ClubController.php:107-138 | the loop changes no club or event and deletes no student. It never moves a student to another club, and creates students of the edited club only. A student no entry names by id is unchanged |
| `ClubController.ReconcileCreations` | app/Http/Controllers/ClubController.php:128-136 | the loop adds exactly as many students as there are entries with no truthy id and a non-empty name |
| `ClubController.ReconcileFollowsNames` | app/Http/Controllers/ClubController.php:108-114 | two requests whose names agree and whose ids and photos agree at the name indices give the same result |
| `ClubController.TrailingEntriesIgnored` | app/Http/Controllers/ClubController.php:112-114 | ids and photos past the last name index have no effect |
| `ClubController.LookupNotScopedToClub` | app/Http/Controllers/ClubController.php:116-119 | editing one club renames a student of another club found by id, and that student stays in its own club |
| `ClubController.AliceAndBob` | app/Http/Controllers/ClubController.php:112-137 | ids `[null, 5]` with names `["Alice", "Bob"]` create "Alice" under the club without a photo and rename student 5 to "Bob", photo and disk untouched |
| `ClubController.ReconcileEntryKeepsConsistent` | app/Http/Controllers/ClubController.php:116-137 | one loop iteration keeps every held path on the disk and unshared |
| `ClubController.ReconcileKeepsConsistent` | app/Http/Controllers/ClubController.php:112-138 | the whole loop keeps every held path on the disk and unshared |
| `ClubController.Update` | app/Http/Controllers/ClubController.php:67-141 | an unknown club id is a 404 whatever the request; a known one with an invalid request fails validation. On success the club's six fields equal the request's. Staff photo and logo keep their path without an upload and get a path not on the old disk with one. Other clubs and events are unchanged; existing students are kept in their clubs and new ones belong to the edited club |
| `ClubController.UpdateKeepsConsistent` | app/Http/Controllers/ClubController.php:67-138 | updating a club keeps every held path on the disk and unshared |
| `ClubController.Destroy` | app/Http/Controllers/ClubController.php:143-166 | an unknown id is a 404. Otherwise exactly that club and its students are removed, other students and all events are kept, and the logo, staff photo and students' photos leave the disk. No blob is added |
| `ClubController.DestroyDeletesClubBlobs` | app/Http/Controllers/ClubController.php:145-163 | a blob leaves the disk iff it is held by the club's logo, staff photo or one of its students' photos |
| `ClubController.DestroyKeepsConsistent` | app/Http/Controllers/ClubController.php:143-163 | deleting a club keeps every remaining held path on the disk and unshared |
| `ClubController.DestroyThenNotFound` | app/Http/Controllers/ClubController.php:143-163 | after a club is deleted, updating or deleting it again is a 404 |
| `ClubController.DestroyOrphansEvents` | app/Http/Controllers/ClubController.php:143-166 | an event of a deleted club survives unchanged, with a `club_id` that names no club |
| `EventController.Store` | app/Http/Controllers/EventController.php:11-31 | the request fails validation iff it is invalid or names a club that does not exist, and then nothing is stored. Otherwise exactly one event is added under a new key, with the given club and fields. Its image path is fresh and stored iff an image was given; clubs and students are unchanged |
| `EventController.StoreKeepsConsistent` | app/Http/Controllers/EventController.php:22-30 | creating an event keeps every held path on the disk and unshared |
| `EventController.Update` | app/Http/Controllers/EventController.php:41-68 | an invalid request fails validation and a valid one for an unknown id is a 404. Otherwise the event's name, description, date and time equal the request's and its club never changes. Its image follows replace-or-keep, and other events, clubs and students are unchanged |
| `EventController.UpdateKeepsConsistent` | app/Http/Controllers/EventController.php:51-67 | updating an event keeps every held path on the disk and unshared |
| `EventController.UpdateIdempotent` | app/Http/Controllers/EventController.php:53-67 | an update without an image, repeated with the same fields, yields the state the first call produced |
| `EventController.Destroy` | app/Http/Controllers/EventController.php:73-83 | an unknown id is a 404. Otherwise exactly that event is removed, and only its image path, if any, leaves the disk. Clubs and students are unchanged |
| `EventController.DestroyKeepsConsistent` | app/Http/Controllers/EventController.php:75-82 | deleting an event keeps every remaining held path on the disk and unshared |
| `Routes.ClubRejectionsChangeNothing` | app/Http/Controllers/ClubController.php:27-145 | a club form that fails validation, and an update or delete of an unknown club, leave the state exactly as it was |
| `Routes.EventRejectionsChangeNothing` | app/Http/Controllers/EventController.php:13-75 | an event form that fails validation or names no existing club, and an update or delete of an unknown event, leave the state exactly as it was |
| `Routes.RunKeepsConsistent` | app/Http/Controllers/ClubController.php:25-166 | any sequence of club and event requests keeps every held path on the disk and unshared |
| `Routes.ReachableStatesConsistent` | app/Http/Controllers/ClubController.php:25-166 | in every state reachable from an empty database, each path a record holds names a blob on the disk and no blob is held twice |

## Left out

- `ClubController`'s `index`, `create`, `edit` and `profile`, and `EventController`'s
  `edit`: they only read, so on
  the state they are the identity. Their `findOrFail` is the same 404 the mutating
  actions model.
- Validation rules (required fields, mime types, size limits, e-mail format, string
  length, date parsing) are one boolean `valid` per request. The exception is
  `exists:clubs,id` on event creation, which is checked against the clubs table.
- HTTP handling, redirects, views and flash messages carry no state and are left out.
- The ORM and the filesystem disk are replaced by maps and a set of paths. Laravel's
  random 40-character file names are replaced by a counter that never repeats a name.
- Blob contents are not modelled: the disk records which paths exist, not their bytes.
- Concurrent requests and partial failure are left out: requests are handled one at a
  time and each action is all-or-nothing.
- PHP truthiness is simplified. A student id is truthy iff present and non-zero, and a
  name is truthy iff non-empty, so the string "0" counts as a name.
- The request arrays are sequences indexed from 0. PHP arrays with gaps in their keys
  are not modelled.
- A student renamed to an empty or null name would break the database's column
  constraint, which is not visible here. The model stores the empty name.
- `ClubController.Reconcile`: its contract states only frame facts over the whole
  loop. The effect of each entry, including photo replacement, is stated per entry on
  `ClubController.ReconcileEntry`.
- `ClubController.Update`: its contract states the photo fields' paths, not the blob
  set, because the student loop changes the disk afterwards. The blob-level effect of
  the logo and staff photo is stated by `ClubController.SaveClubImageBlobs`.
