# dll-manager in Dafny

A model of the DLL version store of dll-manager and of the administration
scripts that edit its role and permission tables.

**The version store.** This covers the Flask app in `app.py` and the `Version`
record in `models.py`.

- Uploading checks the eight required form fields and the `.dll` extension. It
  saves the file as `CURRENT/{secure_filename(name)}_v{version}.dll` and
  commits a row.
- Archiving (`_archive_old_versions`) keeps the newest row of a software name
  in the current folder. It moves every older row's file into the history
  folder and rewrites the row's path.
- Downloading raises the row's counter and sends the file under
  `get_filename()`.
- `/api/versions` lists every row, newest first.

The tables and files are a `Snapshot`, a sequence of `Version` rows plus a map
from path to bytes. Each route is a function on snapshots. The class
`Storage.Store` performs the same steps in place and is proved equal to those
functions: `Upload`, `ArchiveOldVersions` with its loop `ArchiveRows`, and
`Download`.

The model keeps three behaviours of the code as written:

- The upload route never reaches archiving. It calls `self._archive_old_versions`
  where no `self` exists. The `NameError` is raised after the commit and is
  caught by the route's `except`, so the row is committed and the route
  reports an error (`Upload.CommitOnlyAfterChecks`).
- The file is saved before the row is built. When `int()` or `fromisoformat()`
  fails, the file is left on disk with no row (`Upload.FailureAfterSaveLeavesFile`).
- A re-upload of the same name and version overwrites the file, and two rows
  then share one path (`Upload.ReuploadSharesPath`). Archiving then moves the
  shared file away from under the newest row
  (`Archive.ArchiveOrphansNewestOnSharedPath`). A row already archived under the
  same file name keeps its history path, but its file is overwritten by the
  next move there (`Archive.ArchiveOverwritesArchived`).

**The administration scripts.** Module `Access` holds the tables: permission
name to description, role name to `Role(id, description, permissions)`, and
username to role id. It specifies each script as a function of the tables and
proves the lemmas about them. Class `Scripts.AccessStore` runs each script
with the script's own loops and configuration, proved equal to those
functions. The scripts are:

- `update_permissions.py`: get-or-create of 14 permissions, then a wholesale
  replacement of five roles' lists.
- `check_and_fix_roles.py`: upsert of five roles by code.
- `update_roles_corrected.py`: replacement of lists for existing roles only.
- `create_roles.py`: check-then-create. It looks roles up by display name but
  inserts them under their code, so a second run stops at the unique-name
  violation.
- `delete_default_roles.py`: deletion of `admin` and `user` when no user
  refers to them.
- `update_admin_role.py`: moves user `Admin` to `role_super_admin`, then the
  guarded deletion of `admin`.

## Model

| member | source | states |
|---|---|---|
| Text.StripSpec | app.py:39 | `strip()` leaves a slice of the input with no whitespace at either end; it is empty exactly when the field is missing, empty or whitespace only |
| Text.StripLeftSpec | app.py:55 | the leading part `strip()` drops is whitespace only, and what remains starts with a non-space |
| Text.StripRightSpec | app.py:55 | the trailing part `strip()` drops is whitespace only, and what remains ends with a non-space |
| Text.RemoveAll | app.py:55 | `replace('v', '')` leaves no `v` and never lengthens the string |
| Text.RemoveAllSpec | app.py:55 | `replace('v', '')` keeps every other character as often as it occurred and in the same order (a left-to-right scan that appends each character other than `v`), removes exactly the `v`s, and is the identity on strings without `v` |
| Text.RemoveAllAppend | app.py:55 | removing a character from a concatenation removes it from each part, so the kept characters stay in order |
| Text.RemoveAllScan | app.py:55 | each prefix's result is the shorter prefix's result, extended by its last character unless that is the removed one |
| Text.JoinWords | app.py:54 | the whitespace-joining step of `secure_filename` leaves no whitespace |
| Text.SecureFilename | app.py:54 | the sanitised software name holds only `[A-Za-z0-9_.-]` (so no `/`) and neither starts nor ends with `.` or `_` |
| Paths.Basename | app.py:109 | `basename` holds no `/`, is no longer than the path, and is the path itself when it has no `/` |
| Paths.BasenameIsSuffix | app.py:109 | `basename` is the part after the last `/`: a suffix of the path, preceded by a `/` whenever it is shorter than the path |
| Paths.BasenameOfJoin | app.py:109-110 | the basename of `join(dir, name)` is `name` when `name` has no `/` |
| Paths.FolderShape | config.py:13-14 | each storage folder is the application directory followed by `storage/` and the folder's name |
| Paths.HistoryPathAvoidsCurrent | app.py:107-110 | a path in the history folder never contains the current folder's path |
| Versions.FileNameOf | models.py:29-31 | `{name}_v{version}.dll` is 6 longer than its parts and holds `/` exactly when a part does |
| Versions.FileNameShape | models.py:29-31 | `{name}_v{version}.dll` starts with the name and ends in `.dll` |
| Listing.Matching | app.py:100 | `filter_by(software_name)` yields each row of that name once, and no other row |
| Listing.SortNewestFirst | app.py:100-101 | ordering by `uploaded_at` descending is a permutation of the rows, newest first |
| Listing.InsertKeepsOrder | app.py:101 | inserting one row keeps the newest-first order |
| Listing.NewestFirst | app.py:100-101 | the per-name query returns exactly the rows of that name, each once, newest first |
| Listing.NewestFirstHeadIsLatest | app.py:100-105 | the row archiving keeps is at least as new as every row of that name |
| Listing.NewestFirstKeysOnly | app.py:100-101 | the query's answer depends only on names and upload times, so archiving (which changes paths) does not reorder it |
| Listing.ApiListing | app.py:139-150 | `/api/versions` has one entry per row, newest first, every row appears, and every entry comes from a row |
| Archive.Rename | app.py:113 | `os.rename` moves the content to the new path, removes the old one, and touches no other file |
| Archive.MoveOne | app.py:106-115 | one turn of the loop body keeps the number of rows |
| Archive.MovedPathLeavesCurrent | app.py:107-110 | a moved row's new path no longer contains the current folder |
| Archive.AllOnlyPaths | app.py:105-115 | the loop changes no field but `file_path` |
| Archive.AllUntouched | app.py:105 | rows the loop does not visit are unchanged |
| Archive.AllFrame | app.py:105-113 | the loop leaves every file other than the visited rows' paths and their history paths present or absent as it was, with the same content |
| Archive.AllSettles | app.py:107-115 | after the loop, no visited row points into the current folder at an existing file |
| Archive.AllOfSettledIsIdentity | app.py:107-112 | rows outside the current folder or with missing files make the loop a no-op |
| Archive.AllMoves | app.py:109-114 | a visited row whose file exists in the current folder ends in the history folder under its own file name, with its content, and the old path is gone, provided no other visited row that can still be moved has the same file name |
| Archive.AllRemovesSharedPath | app.py:112-113 | once a visited row points at a current-folder path, no file is there after the loop |
| Archive.AllKeepsBasenames | app.py:109-110 | the loop keeps each row's file name |
| Archive.ArchiveKeepsNewest | app.py:103-105 | the newest row of the name is never changed |
| Archive.ArchiveLeavesOtherNames | app.py:100 | rows of other software names are untouched |
| Archive.ArchiveFrame | app.py:97-115 | archiving leaves every file other than the name's row paths and their history paths present or absent as it was, with the same content |
| Archive.ArchiveKeepsOtherCurrentFiles | app.py:97-115 | a file in the current folder that no row of the name points at, such as another software's file, is still there with the same content |
| Archive.ArchiveLeavesSettledRow | app.py:107-112 | a row whose path is outside the current folder, or whose file does not exist, keeps its path |
| Archive.ArchiveMovesOlder | app.py:105-114 | an older row whose file exists in the current folder moves to `HISTORY/basename(old)` with its content, and the old file is gone, provided no other older row that can still be moved has the same file name |
| Archive.ArchiveOverwritesArchived | app.py:107-113 | a row already archived at `HISTORY/basename(old)` keeps its path, but that file is replaced by the content of the older row moved there, provided no other older row that can still be moved has the same file name |
| Archive.ArchiveSettlesOlder | app.py:105-115 | after archiving, no older row points into the current folder at an existing file |
| Archive.ArchiveIdempotent | app.py:107-115 | archiving twice gives the same table and files as archiving once |
| Archive.ArchiveOrphansNewestOnSharedPath | app.py:105-113 | when an older row shares the newest row's path, archiving moves the file away and leaves the newest row pointing at a missing file |
| Archive.ArchiveKeepsStoredNames | app.py:109-114 | archiving keeps ids equal to row numbers and keeps every row stored under its download name |
| Upload.BlankIsEmptyAfterStrip | app.py:39 | a field counts as blank exactly when `request.form.get(field, '').strip()` is empty |
| Upload.FirstBlank | app.py:38-41 | the scan finds the first blank required field, or none when all are filled in |
| Upload.FindBlankField | app.py:34-41 | the loop over `required_fields` returns what `FirstBlank` specifies |
| Upload.FirstBlankIsFirst | app.py:38-41 | the scan reports field i exactly when i is blank and every earlier field is filled in |
| Upload.Lower | app.py:49 | lower-casing keeps the length and lower-cases each ASCII letter |
| Upload.DllNameCharacterised | app.py:49-51 | the extension test accepts exactly the names ending in `.` followed by `d`/`D`, `l`/`L`, `l`/`L` |
| Upload.NormalizeVersion | app.py:55 | the stored version holds no `v` and is no longer than the input |
| Upload.NormalizeVersionSpec | app.py:55 | the stored version is the stripped input with every `v` removed and every other character kept, as often as it occurred and in order (the left-to-right scan over the stripped input) |
| Upload.StoredNameSlash | app.py:54-58 | the saved file name holds `/` exactly when the normalized version does |
| Upload.SafeNameSlash | app.py:54-58 | a sanitised name contributes no `/` to the file name |
| Upload.Precheck | app.py:34-63 | the checks before the save stop a request exactly when it is not admissible, and never report success |
| Upload.SaveAndRecord | app.py:62-93 | after the save the file is on disk; a failing `int()` gives `BadDuration` and a failing `fromisoformat()` gives `BadTimestamp`, each leaving the table as it was; when both succeed exactly one row is appended after the old ones, and the route still reports the `self` error |
| Upload.HandleUpload | app.py:31-93 | the upload route never reports success, and a request stopped by a check changes nothing |
| Upload.BlankFieldRejected | app.py:38-41 | a blank required field is rejected before any file is saved or row created |
| Upload.CommittedRow | app.py:66-82 | the committed row is the one the route builds: sanitised name, normalised version, stripped text fields, parsed duration and completion time, canonical path, byte size, counter 0, uploader `admin`, insert time `now` |
| Upload.UploadCommitsExactlyParsed | app.py:62-82 | the route commits a row exactly when the request passes every check up to the save and both `int()` and `fromisoformat()` succeed |
| Upload.CommitOnlyAfterChecks | app.py:66-93 | a row is committed only for a request that passed every check, and the route then reports the `self` error |
| Upload.FailureAfterSaveLeavesFile | app.py:62-75 | when the row cannot be built, the saved file stays on disk and no row refers to it |
| Upload.UploadTouchesOnlyStoredPath | app.py:59-62 | an upload changes no file other than the one at the stored path |
| Upload.AppendKeepsStoredNames | app.py:58-69 | appending a row with the next id, stored under its own name, keeps both table invariants |
| Upload.UploadKeepsStoredNames | app.py:58-82 | a committed row is stored under the name it is downloaded as (`get_filename()`) |
| Upload.SlashInVersionFailsSave | app.py:55-62 | a version containing `/` makes the save fail, so nothing is changed |
| Upload.ReuploadSharesPath | app.py:58-62 | re-uploading the same name and version overwrites the file, and the two rows share one path |
| Upload.VersionNormalizationExamples | app.py:55 | `v1.0` and ` 1.0 ` name the same file, and `2.0-dev` becomes `2.0-de` |
| Storage.FindRow | app.py:120 | the lookup by primary key finds the row with that id, or reports that none has it |
| Storage.FindRowByNumber | app.py:120 | with ids equal to row numbers, id `n` is row `n - 1` |
| Storage.DownloadUnknownChangesNothing | app.py:120 | downloading an unknown id answers 404 and changes nothing |
| Storage.DownloadRaisesCounter | app.py:120-134 | downloading a known id raises its counter by exactly 1 and changes no other field, row or file; it sends the file under `get_filename()`, or fails after the counter was raised when the file is gone |
| Storage.DownloadsCount | app.py:123 | n downloads raise the counter by exactly n |
| Storage.DownloadSendsStoredName | app.py:129-132 | a row stored under its own name is sent under the name of the file on disk |
| Storage.DownloadKeepsStoredNames | app.py:123 | a download keeps both table invariants |
| Storage.Store.constructor | config.py:11-14 | the store starts with the two storage folders derived from one application directory and an empty table |
| Storage.Store.Upload | app.py:31-93 | the in-place upload leaves the state and answer `HandleUpload` specifies, and keeps the table invariants |
| Storage.Store.SaveAndRecordRow | app.py:62-85 | the in-place save, row construction and commit leave the state and answer `SaveAndRecord` specifies |
| Storage.Store.ArchiveOldVersions | app.py:97-115 | in-place archiving leaves the state `Archived` specifies, and keeps the table invariants |
| Storage.Store.ArchiveRows | app.py:105-115 | the loop over the older rows leaves the state `ArchiveAll` specifies |
| Storage.Store.MoveToHistory | app.py:106-115 | the loop body leaves the state `MoveOne` specifies |
| Storage.Store.CountAndSend | app.py:123-134 | for a row that exists, the in-place counter raise and send leave the state and answer `HandleDownload` specifies |
| Storage.Store.Download | app.py:117-134 | the in-place download leaves the state and answer `HandleDownload` specifies, and keeps the table invariants |
| Access.Keep | update_permissions.py:92-94 | the appended list holds exactly the configured names that are known, and is no longer than the configured list |
| Access.KeepAppend | update_roles_corrected.py:54-56 | filtering keeps the configured order |
| Access.KeepAllKnown | update_permissions.py:92-94 | when every configured name is known, the role gets exactly the configured list |
| Access.KeepKnown | check_and_fix_roles.py:66-71 | the clear-then-append loop yields the configured names that are known, in order |
| Access.Names | update_permissions.py:33-46 | `created_permissions` holds exactly the catalog names |
| Access.EnsurePermissionsSpec | update_permissions.py:34-47 | after get-or-create every catalog name has a permission; existing ones are reused unchanged; none is deleted; a new one gets its first catalog entry's description |
| Access.EnsurePermissionsNoop | update_permissions.py:35-36 | a table holding every catalog name is left exactly as it is |
| Access.EnsurePermissionsIdempotent | update_permissions.py:35-36 | a second run creates no permission |
| Access.LastForAt | update_permissions.py:85 | the list a role receives is the one its (last) plan entry names |
| Access.ReplaceAllSpec | update_permissions.py:85-94 | no role is created or deleted; a planned existing role holds exactly the known configured names, in order; ids, descriptions and unplanned roles are unchanged; missing roles are skipped |
| Access.ReplaceAllRole | update_roles_corrected.py:47-56 | one existing role's result, as above |
| Access.ReplaceAllIdempotent | update_roles_corrected.py:45-58 | replacing twice gives the same tables as replacing once |
| Access.LastConfig | check_and_fix_roles.py:57-59 | a code has a configuration exactly when it is one of the configured codes |
| Access.CodesContain | check_and_fix_roles.py:57-59 | every configured code is among the codes the loop visits |
| Access.UpsertAllFrame | check_and_fix_roles.py:57-91 | afterwards a role exists under every code and under no other new name; existing roles keep their ids; roles outside the codes are unchanged |
| Access.UpsertAllFresh | check_and_fix_roles.py:78-89 | created roles get fresh ids, so role ids stay distinct |
| Access.UpsertAllSets | check_and_fix_roles.py:61-89 | each code's role has the configured description and the configured permissions that exist, in order |
| Access.UpsertAllNoCreation | check_and_fix_roles.py:59-61 | once every code exists, a run creates no role |
| Access.UpsertAllIdempotent | check_and_fix_roles.py:59-79 | a second run gives the same tables |
| Access.CreateKeepsExisting | create_roles.py:43-63 | existing roles are never modified or deleted; a stop names a configured code that already names a role |
| Access.CreateFresh | create_roles.py:48-53 | created roles get fresh ids, so role ids stay distinct |
| Access.CreateFromConfigs | create_roles.py:43-58 | every new role comes from a configuration whose display name named no role before the run; it is stored under that configuration's code, with its description and its known permissions in order |
| Access.CreateSkipsNamed | create_roles.py:43-45 | a configuration whose display name already names a role creates nothing: when every display name does, the run leaves the table as it was and does not stop |
| Access.CreateRerunStops | create_roles.py:45-49 | after a complete run, a second run stops at the first code: the lookup uses the display name, the insert the code |
| Access.KeepNoneKnown | create_roles.py:56-58 | when no configured name exists, the new role gets no permission |
| Access.DeleteAllSpec | delete_default_roles.py:8-24 | a role disappears exactly when it is a candidate, exists, and no user's `role_id` is its id; remaining roles are unchanged |
| Access.DeleteAllIdempotent | delete_default_roles.py:14-22 | a second run deletes nothing more |
| Access.DeleteAllKeepsReferences | delete_default_roles.py:14-21 | guarded deletion never leaves a user pointing at a deleted role |
| Access.UpdateAdminRoleSpec | update_admin_role.py:6-32 | `Admin` moves to `role_super_admin` exactly when both exist, and no other user changes; `admin` is deleted exactly when it exists and nobody refers to it after the move; no other role changes |
| Access.UpdateAdminRoleFreesAdmin | update_admin_role.py:14-28 | when `Admin` was the only holder of `admin` and `role_super_admin` exists, `admin` is deleted in the same run |
| Scripts.AccessStore.UpdatePermissions | update_permissions.py:33-97 | the script leaves the permissions `EnsurePermissions` specifies and the roles `ReplaceAll` specifies, with the catalog names as the known set; users are untouched |
| Scripts.AccessStore.EnsureCatalog | update_permissions.py:34-49 | the get-or-create loop leaves the permissions `EnsurePermissions` specifies |
| Scripts.AccessStore.ReplaceRolePermissions | update_permissions.py:85-97 | the clear-and-append loop leaves the roles `ReplaceAll` specifies, and no other table changes |
| Scripts.AccessStore.UpdateRolesCorrected | update_roles_corrected.py:42-62 | the script replaces the lists of existing configured roles with the known names, using the permission table as the known set; no other table changes |
| Scripts.AccessStore.CheckAndFixRoles | check_and_fix_roles.py:54-91 | the script leaves the roles `UpsertAll` specifies over its five configurations, and only reads the permission table |
| Scripts.AccessStore.UpsertRoles | check_and_fix_roles.py:57-91 | the upsert loop leaves the roles `UpsertAll` specifies |
| Scripts.AccessStore.CreateRoles | create_roles.py:40-63 | the script leaves the roles `CreateMissing` specifies over its five configurations, and reports the code it stopped at |
| Scripts.AccessStore.CreateRolesFrom | create_roles.py:43-63 | the check-then-create loop leaves the roles `CreateMissing` specifies |
| Scripts.AccessStore.DeleteRoleIfUnused | delete_default_roles.py:10-22 | one guarded deletion; users are never modified |
| Scripts.AccessStore.DeleteDefaultRoles | delete_default_roles.py:6-24 | only `admin` and `user` are candidates; the result is what `DeleteAllUnused` specifies |
| Scripts.AccessStore.DeleteRoles | delete_default_roles.py:8-24 | the loop of guarded deletions leaves the roles `DeleteAllUnused` specifies |
| Scripts.AccessStore.UpdateAdminRoleScript | update_admin_role.py:6-32 | the script leaves the users and roles `UpdateAdminRole` specifies |
| Scripts.SuperAdminPlan | update_permissions.py:63 | the plan gives `role_super_admin` the list `["*"]`, and `*` is in the catalog |
| Scripts.SuperAdminHoldsOnlyWildcard | update_permissions.py:63 | after the script an existing `role_super_admin` holds exactly `*`, with its id and description unchanged |
| Scripts.FixCreatesAllCodes | check_and_fix_roles.py:57-91 | after the script a role exists under each of the five codes |
| Scripts.CatalogNamesShape | update_permissions.py:6-30 | every catalog name is `*` or contains a colon |
| Scripts.CreateConfigsNamesShape | create_roles.py:11-35 | no permission name in the creation configurations is `*` or contains a colon |
| Scripts.OutsideCatalog | create_roles.py:56-58 | names without `*` or a colon keep nothing of the catalog |
| Scripts.CreateConfigsUnknown | create_roles.py:56-58 | none of the names `create_roles.py` configures is in the catalog of `update_permissions.py` |
| Scripts.CreateRolesGrantNothing | create_roles.py:56-58 | against that catalog, every role the script creates has an empty permission list |
| Scripts.CreateRolesRerunStops | create_roles.py:45-49 | when no role is named `超级管理员` and a run completes, the next run stops at `role_super_admin` |

## Left out

- Flask plumbing is left out: routing, templates, `flash`, `redirect`, the MIME type and attachment flag of `send_file`, logging, app start-up and `init_db`. These are framework calls and I/O.
- The index route is left out. It is a read-only query limited to 20 rows.
- The GET branch of `/upload` is left out. It only renders a template.
- `health_check` is left out. It probes the database and file permissions.
- `get_file_size_mb` and the `strftime` formatting of `uploaded_at` are left out. They are floating-point rounding and date formatting. The API entry carries the raw size and timestamp.
- `int()` and `datetime.fromisoformat()` are parameters (`Upload.Parsers`): each either fails or yields a value. The clock is the `now` parameter.
- `os.path.getsize` is the length of the uploaded bytes.
- `Text.SecureFilename` is a concrete stand-in that follows werkzeug's steps, with three differences:
  - it does not model the Unicode NFKD normalisation or the ASCII folding;
  - it does not model the Windows device-name check;
  - the name is not exactly werkzeug's for non-ASCII input.
- `Upload.Lower` lower-cases ASCII letters only. Python also lower-cases non-ASCII letters, which the model leaves unchanged.
- `Paths.Join` and `Paths.Basename` follow POSIX `posixpath`. Windows separators are not modelled.
- `Upload.Admissible`, `Upload.Precheck`: `file.save` is assumed to fail exactly when the file name holds a `/`. The current folder holds no subdirectories. Other I/O failures (disk full, permissions) are not modelled.
- `Upload.Precheck`: a body over `MAX_CONTENT_LENGTH` (config.py:21) is modelled as a `bodySize` field. Werkzeug raises inside the `try`, so the request fails before any check.
- `Upload.NewRow`: the autoincrement id is `|versions| + 1`. Rows are never deleted.
- `uploaded_at` is the `now` parameter. The database default `datetime.utcnow` is not modelled.
- `Upload.SaveAndRecord`: the commit of the new row (app.py:82) is assumed to succeed. The database is whatever `DATABASE_URL` names (config.py:7). One that enforces the declared column lengths (models.py:10-25) or the range of `db.Integer` would reject an over-long field or a huge `test_duration` at the commit. The `except` would then run and leave the saved file with no row. Column lengths and integer ranges are not modelled.
- `Listing.SortNewestFirst` breaks ties in `uploaded_at` by row order. The database leaves that order unspecified.
- Archive.ArchiveMovesOlder: requires that no other older row of the name that can still be moved (its path contains the current folder and its file exists) has a file of the same name. With a shared path (a re-upload), the first move takes the file, and `Archive.ArchiveOrphansNewestOnSharedPath` states what happens then. Rows already in the history folder do not count: `Archive.ArchiveOverwritesArchived` states that the move then overwrites their archived file.
- Archive.AllMoves: the same requirement over the rows the loop visits.
- Archive.ArchiveOverwritesArchived: carries the same requirement as `Archive.ArchiveMovesOlder` for the row moved into the history folder.
- Archiving reads the listing once and commits row by row. A failure halfway (an `os.rename` error) is not modelled, and neither are concurrent requests or transactions. Each operation is one sequential step.
- The `User`, `Role` and `Permission` classes the scripts import from `models` are not modelled; roles and users are the maps in module `Access`. `User.has_permission` and password hashing (`create_admin.py`) are left out with them. `test_has_permission.py`, `check_admin_permissions.py` and `verify_admin_permissions.py` only query and print.
- Permission ids are not modelled. Roles refer to permissions by their unique names.
- A configured list naming a permission twice gives a list with the name twice. How the association table treats duplicates is not modelled.
- `create_roles.py` calls `flush` after an insert. A unique-name violation is modelled as the script stopping with the earlier entries committed (`Access.CreateRun.aborted`). The database error itself is not modelled.
- The final printing loops of every script are left out.
