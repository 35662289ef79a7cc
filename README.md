# wh0share storage accounting and upload admission, in Dafny

wh0share is a small self-hosted file-share: a browser form uploads files into
one upload folder, the index page lists them with the storage used and free
under a configured quota, and files can be downloaded, viewed or deleted.
This project models the logic under the web layer:

- the extension allow-list rule `allowed_file` (module `Utils`);
- the folder-size walk `get_folder_size`, over a directory tree whose file
  sizes are given, and the start-up disk check `check_available_storage`
  with its fixed 1 GiB margin (module `Utils`);
- the configuration derived at start-up, i.e. the normalised extension set
  and the MB-to-bytes limits, plus the start-up refusal, the `free` clamp of
  the index page, the upload decision and the upload folder itself (module
  `App`). The folder is a class `App.UploadFolder` whose `files` map (name to
  bytes) is changed in place by `Upload` and `Delete`;
- the three Python string built-ins these rely on, `lower`, `strip` and
  `split` (module `Strings`).

The upload handler's checks are modelled in the code's order, and the first
failing check decides the outcome. The outcomes are: no `file` part, empty
name, extension not allowed (judged on the name the client sent), quota
exceeded (`used + size > quota`, so filling the quota exactly is allowed),
then the save under the sanitised name, which overwrites any file of that
name. `App.UploadStep` and `App.DeleteStep` give one request's effect on the
folder's contents. `App.MapBytes` is the folder's total size. The lemmas
prove that a folder that starts within the quota stays within it while
requests are served one at a time. A folder that is already over the quota
(for instance after the quota was lowered) is not brought back under it.

Inputs taken as parameters: the free bytes `shutil.disk_usage` reports, the
directory tree `os.walk` visits (with the sizes `os.path.getsize` returns),
and werkzeug's `secure_filename`. That last one is a function-typed field of
the folder (`secureFilename`), and nothing is assumed about it.

Points where the code's behaviour is easy to misread:

- `check_available_storage` does not clamp the available figure at zero, so
  it is negative on a disk with less than 1 GiB free.
- The margin is a fixed 1024^3 bytes, not a configured value.
- A request with no `file` part and a part with an empty name are two
  distinct outcomes.
- When the sanitised name is empty, the save targets the upload folder
  itself and fails. The model reports this as `SaveFailed` and leaves the
  folder unchanged.

## Model

| member | source | states |
|---|---|---|
| Strings.Lower | utils.py:42 | `lower()` keeps the length and maps each character through the ASCII lower-casing, which leaves no upper-case letter |
| Strings.LowerIdempotent | app.py:25 | lower-cased text has no upper-case letter and lower-casing it again changes nothing |
| Strings.Strip | app.py:25 | `strip()` returns a slice of its input with no whitespace at either end, and everything it removed is whitespace |
| Strings.StripStripped | app.py:25 | stripping text with no whitespace at its ends returns it unchanged |
| Strings.Split | app.py:26 | `split(sep)` returns at least one piece, no piece contains the separator, and joining the pieces with the separator gives the input back |
| Strings.SplitJoin | app.py:26 | the converse round trip: splitting joined separator-free pieces returns exactly those pieces |
| Utils.Extension | utils.py:42 | the text after the last dot: None exactly when the name has no dot, otherwise a dot-free tail with `name == head + "." + tail` |
| Utils.ExtensionOfSplit | utils.py:42 | for any stem, the extension of `stem + "." + ext` is `ext` whenever `ext` has no dot |
| Utils.AllowedFile | utils.py:42 | a name is allowed iff it has a last dot at some position and the lower-cased text after that dot is in the allow-set |
| Utils.ExtensionAtLastDot | utils.py:42 | `rsplit(".", 1)[1]` is exactly the text after the last dot, wherever that dot is |
| Utils.AllowedFileIff | utils.py:42 | a name is allowed iff it splits as `stem + "." + ext` with `ext` dot-free and `lower(ext)` in the allow-set (both directions) |
| Utils.NoDotNeverAllowed | utils.py:42 | a name without a dot is refused whatever the allow-set |
| Utils.TrailingDot | utils.py:42 | a name ending in `.` has the empty extension: allowed iff `""` is in the set |
| Utils.AllowedFileIgnoresCase | utils.py:42 | `a.txt` is allowed by `{txt, pdf}` and by `{txt}`, and `a.TXT` is allowed by `{txt}` |
| Utils.AllowedFileRefuses | utils.py:42 | `a` is refused by `{txt, pdf}` and `a.exe` by `{txt}` |
| Utils.AllowedFileLastExtension | utils.py:42 | `a.tar.gz` is judged by `gz` alone: allowed by `{gz}`, refused by `{tar}` |
| Utils.GetFolderSize | utils.py:56-62 | the nested accumulator loops return the sum of the sizes of every file in every step of the walk |
| Utils.AddFileToWalk | utils.py:57-60 | one more file of size s, put anywhere in any directory of the walk, raises the folder size by exactly s |
| Utils.WalkBytesOfTree | utils.py:57-60 | walking a directory tree top-down counts the bytes of every file in every sub-directory once (walk total equals tree total) |
| Utils.EmptyTreeBytes | utils.py:56-62 | a tree with no file anywhere has folder size 0 |
| Utils.CheckAvailableStorage | utils.py:80-85 | the second result is always `free - 1073741824`, unclamped; the first is false exactly when that is less than the quota |
| Utils.CheckAvailableStorageCases | utils.py:81-85 | the margin is 1024^3; a quota equal to the remaining space fits, one byte more does not; on a disk under 1 GiB free every non-negative quota gives `(false, negative)` |
| App.MbToBytes | app.py:30-31 | a limit in bytes divided by 1024^2 gives the MB figure back, with no remainder |
| App.MbToBytesExact | app.py:30-31 | a MB is 1024^2 bytes; the conversion keeps the order of MB figures and maps differences to differences |
| App.NormalizeExtensions | app.py:24-27 | the extension set holds every comma-separated item of the configured list, stripped and lower-cased, and nothing else |
| App.NormalizedExtensionsAreNormal | app.py:24-27 | every configured extension is already stripped and lower-case |
| App.DefaultExtensionSet | app.py:24-27 | the default list gives exactly `{txt, pdf, png, jpg, jpeg, gif}` |
| App.TrailingCommaAllowsTrailingDot | app.py:24-27 | a configured list that ends with a comma contains `""`, so every name ending in a dot is then allowed |
| Strings.JoinEndsWithLast | app.py:26 | the joined list ends with its last item, after a separator unless it is the only item |
| App.LoadConfig | app.py:22-31 | the configuration keeps the folder, takes the normalised extension set (every member stripped and lower-case) and holds both limits as exact MB multiples of the configured figures |
| App.DefaultConfig | app.py:24-31 | the defaults give the six extensions, 1073741824 bytes per request and 10737418240 bytes of quota |
| App.Startup | app.py:33-41 | start-up proceeds iff the quota plus the 1 GiB margin fits in the free space; a refusal reports the quota in MB and the available space floored to MB |
| App.FreeBytes | app.py:62 | the free figure is never negative, equals `quota - used` when `used <= quota`, and is 0 otherwise |
| App.MapBytesRemove | app.py:107 | the folder total is the entry's size plus the total of the rest, whichever entry is taken out |
| App.MapBytesUpdate | app.py:116 | writing v under k gives the total without k's old file plus the size of v, and the total grows by exactly the size of v when k was absent |
| App.Decide | app.py:86-116 | each outcome certifies what caused it: no part iff `file` is missing; an empty name; a client name refused by the allow-list; an allowed name over the quota; an empty sanitised name; or acceptance with every check passed, under the non-empty sanitised name |
| App.AcceptedIff | app.py:86-118 | an upload is accepted iff the part exists, its name is non-empty, its client name is allowed, `used + size <= quota` and the sanitised name is non-empty; it is stored under the sanitised name |
| App.DecisionOrder | app.py:86-116 | each check decides the outcome as soon as it fails, in the code's order: missing part, empty name, refused extension, over quota, empty sanitised name |
| App.FirstMatchWins | app.py:86-114 | a missing part or empty name is reported whatever the allow-set, usage, quota and sanitiser; a type refusal does not depend on usage, quota or sanitiser; a quota refusal does not depend on the sanitiser |
| App.TypeCheckIgnoresStoredName | app.py:95-96 | with a sanitiser that turns `a.txt` into `a`, the upload is accepted as `a` although `a` itself would be refused |
| App.TypeCheckUsesClientName | app.py:95-101 | with a sanitiser that turns `a.exe` into `a.txt`, the upload is refused for its type although `a.txt` would be allowed |
| App.QuotaBoundary | app.py:106-109 | rejected for the quota iff `used + size > quota`; with 9000 of 10000 used, 500 bytes are accepted and 1500 refused |
| App.UploadStep | app.py:86-116 | the decision is made against the folder's current total; afterwards the folder has the same names plus the stored one, if accepted, which holds the request's bytes, and every other file unchanged |
| App.UploadEffect | app.py:86-118 | a refused upload leaves the folder unchanged; an accepted one stores the bytes under the sanitised name, keeps every other file, and the new total is the old total without that name's old file plus the new size |
| App.UploadKeepsQuota | app.py:106-116 | an accepted upload never takes a folder that was within the quota beyond it (the check counts any overwritten copy too) |
| App.UploadThenDelete | app.py:116 | uploading under a new name and then deleting it gives the original folder back |
| App.ReuploadKeepsOneCopy | app.py:116 | two accepted uploads stored under one name leave only the second file's bytes, and the total counts only that copy |
| App.ReuploadCountsOldCopy | app.py:106-109 | the quota check counts the copy an upload would replace: one byte stored under a one-byte quota, re-uploading one byte under the same name is refused though the result would fit |
| App.DeleteStep | app.py:165-170 | the outcome names the request's file and is a deletion iff the file exists; afterwards the name is absent, no name was added, and putting the old file back restores the folder; an absent name leaves the folder as it was |
| App.DeleteEffect | app.py:165-172 | deleting a present name reports success and removes that entry alone, freeing exactly its bytes; an absent name is reported not found and nothing changes |
| App.Serve | app.py:86-118 | after any sequence of requests, every file in the folder was there before or is the sanitised name of one of the uploads |
| App.ServeKeepsQuota | app.py:86-118 | served one after another, any sequence of uploads and deletes keeps a folder that starts within the quota within it |
| App.ListsAppend | app.py:60 | adding an unlisted file to a listing keeps it a listing of each file once with its size |
| App.UploadFolder.constructor | app.py:43 | the folder starts with the files already on disk, under the given configuration and sanitiser |
| App.UploadFolder.ListFiles | app.py:60 | the listing names every file exactly once with its size, and the sizes add up to the folder total |
| App.UploadFolder.UsedBytes | app.py:107 | `get_folder_size` of the upload folder, run on its one-directory walk, is the folder total |
| App.UploadFolder.Index | app.py:60-63 | with a zero quota the page fails (the used percentage divides by zero); otherwise it lists every file once, reports the folder total as used, and the clamped free figure |
| App.UploadFolder.Upload | app.py:86-118 | the upload handler's checks in order, then the save: its outcome and the new folder are those of `UploadStep` on the old folder |
| App.UploadFolder.Delete | app.py:165-172 | the delete handler: its outcome and the new folder are those of `DeleteStep` on the old folder |

## Left out

- The web layer: routing, `render_template`, `flash`, `redirect` and `url_for` are left out. Each handler's message becomes an outcome value.
- The download and inline-view handlers (`send_from_directory`) are not modelled: they only serve bytes. Their path-traversal checks are in Flask and werkzeug, which are not part of this model.
- `secure_filename` is werkzeug code and is not part of this model. It is an arbitrary `string -> string` field; nothing is assumed about its result.
- A `FileStorage` object is falsy exactly when its name is empty. This is werkzeug behaviour, so the model checks only `filename == ""`.
- The per-request size cap (`MAX_CONTENT_LENGTH`): the web framework raises `RequestEntityTooLarge` for a larger request, and the app's own handler (app.py:175-178) turns that into a message. Both are left out. The model computes the cap in `Config` but does not enforce it.
- The filesystem calls (`os.walk`, `os.path.getsize`, `shutil.disk_usage`, `os.listdir`, `os.makedirs`, `file.seek`/`tell`/`save`, `os.remove`) are inputs or map operations. Walk errors, symbolic links and files that vanish during a walk are not modelled.
- `UploadFolder` holds only the files directly in the upload folder, because uploads only write there. A sub-directory made outside the application is covered by `Utils.Folder` and `GetFolderSize`, but not by the class.
- `UploadFolder.Delete` is not modelled for names that resolve to a directory (`.` and `..`). These exist on disk, so the source calls `os.remove` on them, and that call fails. The model reports them as not found.
- The start-up check when the upload folder does not exist yet: `shutil.disk_usage` then raises, because the check runs before `os.makedirs` creates the folder, so the process fails to start. `App.Startup` models only the two outcomes for an existing folder.
- Floating point: the GiB rounding and the value of the used percentage of the index page. Only whether computing it fails, for a zero quota, is modelled.
- Environment loading: `load_dotenv`, `os.getenv`, the `int(...)` parsing of the MB values, `SECRET_KEY`, `SITE_INDEX`, `DEBUG`, `os.path.abspath` and `app.run`. MB values are taken as integers.
- `check_env`: it prints and exits.
- Concurrency: racing uploads can overrun the quota. The quota lemmas hold only for requests served one at a time.
- Strings.Lower and Strings.Strip model only ASCII case and whitespace. Python's full Unicode tables are not modelled.
