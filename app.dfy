/**
 The request handlers of app.py below the web framework: the configuration
 derived at start-up, the start-up disk-space check, the storage figures of
 the index page, the upload decision and the upload folder that uploads and
 deletions change. Flash messages and redirects become outcome values; the
 folder is a map from file name to contents.
 */
module App {
  import opened Wrappers
  import opened Strings
  import opened Utils

  type Bytes = seq<bv8>

  // ---------------------------------------------------------------------
  // Configuration

  /** The allow-list used when none is configured. */
  const DefaultExtensions: string := "txt,pdf,png,jpg,jpeg,gif"

  const BytesPerMb: int := 1048576

  /** A size in MB from the environment, as the byte count the code uses. */
  function MbToBytes(mb: int): (r: int)
    ensures r / BytesPerMb == mb && r % BytesPerMb == 0
  {
    mb * BytesPerMb
  }

  /** A MB is 1024^2 bytes, and the conversion keeps the order and the
      differences of the MB figures. */
  lemma MbToBytesExact(a: int, b: int)
    ensures BytesPerMb == 1024 * 1024
    ensures a <= b ==> MbToBytes(a) <= MbToBytes(b)
    ensures MbToBytes(b) - MbToBytes(a) == MbToBytes(b - a)
  {
  }

  /** The allow-list: each comma-separated item stripped and lower-cased. */
  function NormalizeExtensions(raw: string): (r: set<string>)
    ensures forall p :: p in Split(raw, ',') ==> Lower(Strip(p)) in r
    ensures forall e :: e in r ==> exists p :: p in Split(raw, ',') && e == Lower(Strip(p))
  {
    set p | p in Split(raw, ',') :: Lower(Strip(p))
  }

  /** Every configured extension is already stripped and lower-case, so
      normalising it again changes nothing. */
  lemma NormalizedExtensionsAreNormal(raw: string)
    ensures forall e :: e in NormalizeExtensions(raw) ==>
              IsStripped(e) && Lower(e) == e && Lower(Strip(e)) == e
  {
    forall e | e in NormalizeExtensions(raw)
      ensures IsStripped(e) && Lower(e) == e && Lower(Strip(e)) == e
    {
      var p :| p in Split(raw, ',') && e == Lower(Strip(p));
      LowerKeepsStripped(Strip(p));
      LowerIdempotent(Strip(p));
      StripStripped(e);
    }
  }

  /** The default list gives exactly the six default extensions. */
  lemma DefaultExtensionSet()
    ensures NormalizeExtensions(DefaultExtensions) == {"txt", "pdf", "png", "jpg", "jpeg", "gif"}
  {
    DefaultSplit();
    DefaultPiecesNormal();
    NormalFormsAreFixed(["txt", "pdf", "png", "jpg", "jpeg", "gif"]);
    DefaultPieceSet();
  }

  lemma DefaultSplit()
    ensures Split(DefaultExtensions, ',') == ["txt", "pdf", "png", "jpg", "jpeg", "gif"]
  {
    DefaultPieces();
    SplitJoin(["txt", "pdf", "png", "jpg", "jpeg", "gif"], ',');
  }

  lemma DefaultPiecesNormal()
    ensures forall p :: p in ["txt", "pdf", "png", "jpg", "jpeg", "gif"] ==> Lower(Strip(p)) == p
  {
    forall p | p in ["txt", "pdf", "png", "jpg", "jpeg", "gif"] ensures Lower(Strip(p)) == p {
      DefaultPiecePlain(p);
      LowerStripPlain(p);
    }
  }

  lemma DefaultPieceSet()
    ensures (set p | p in ["txt", "pdf", "png", "jpg", "jpeg", "gif"]) == {"txt", "pdf", "png", "jpg", "jpeg", "gif"}
  {
  }

  lemma NormalFormsAreFixed(ps: seq<string>)
    requires forall p :: p in ps ==> Lower(Strip(p)) == p
    ensures (set p | p in ps :: Lower(Strip(p))) == set p | p in ps
  {
  }

  /** Text with no whitespace at its ends and no upper-case letter is its own
      normal form. */
  lemma LowerStripPlain(p: string)
    requires IsStripped(p)
    requires forall i :: 0 <= i < |p| ==> !IsUpper(p[i])
    ensures Lower(Strip(p)) == p
  {
    StripStripped(p);
    LowerOfLowerCase(p);
  }

  /** Each default extension has no whitespace at its ends and no capital. */
  lemma DefaultPiecePlain(p: string)
    requires p in ["txt", "pdf", "png", "jpg", "jpeg", "gif"]
    ensures IsStripped(p)
    ensures forall i :: 0 <= i < |p| ==> !IsUpper(p[i])
  {
  }

  lemma DefaultPieces()
    ensures Join(["txt", "pdf", "png", "jpg", "jpeg", "gif"], ',') == DefaultExtensions
    ensures forall p :: p in ["txt", "pdf", "png", "jpg", "jpeg", "gif"] ==> ',' !in p
  {
    JoinCons("txt", ["pdf", "png", "jpg", "jpeg", "gif"], ',');
    JoinCons("pdf", ["png", "jpg", "jpeg", "gif"], ',');
    JoinCons("png", ["jpg", "jpeg", "gif"], ',');
    JoinCons("jpg", ["jpeg", "gif"], ',');
    JoinCons("jpeg", ["gif"], ',');
    assert DefaultExtensions == "txt" + "," + ("pdf" + "," + ("png" + "," + ("jpg" + "," + ("jpeg" + "," + "gif"))));
  }

  /** A list that ends with a comma yields the empty extension, and with it
      every name that ends in a dot is allowed. */
  lemma TrailingCommaAllowsTrailingDot(raw: string, stem: string)
    requires |raw| > 0 && raw[|raw| - 1] == ','
    ensures "" in NormalizeExtensions(raw)
    ensures AllowedFile(stem + ".", NormalizeExtensions(raw))
  {
    var pieces := Split(raw, ',');
    JoinEndsWithLast(pieces, ',');
    var last := pieces[|pieces| - 1];
    assert last in pieces;
    assert last == [];
    assert Lower(Strip(last)) == "";
    TrailingDot(stem, NormalizeExtensions(raw));
  }

  /** The configuration, fixed at process start. */
  datatype Config = Config(
    uploadFolder: string,
    allowedExtensions: set<string>,
    maxContentLength: int,
    maxStorageBytes: int)

  /** The derivations of app.py from the environment values: the allow-list
      normalised, both limits in bytes. */
  function LoadConfig(uploadFolder: string, rawExtensions: string,
                      maxContentLengthMb: int, maxStorageMb: int): (c: Config)
    ensures c.uploadFolder == uploadFolder
    ensures c.allowedExtensions == NormalizeExtensions(rawExtensions)
    ensures forall e :: e in c.allowedExtensions ==> IsStripped(e) && Lower(e) == e
    ensures c.maxContentLength / BytesPerMb == maxContentLengthMb && c.maxContentLength % BytesPerMb == 0
    ensures c.maxStorageBytes / BytesPerMb == maxStorageMb && c.maxStorageBytes % BytesPerMb == 0
  {
    NormalizedExtensionsAreNormal(rawExtensions);
    Config(uploadFolder, NormalizeExtensions(rawExtensions),
           MbToBytes(maxContentLengthMb), MbToBytes(maxStorageMb))
  }

  /** The defaults: the six extensions, 1 GiB per request, 10 GiB in all. */
  lemma DefaultConfig(uploadFolder: string)
    ensures var c := LoadConfig(uploadFolder, DefaultExtensions, 1024, 10240);
            c.allowedExtensions == {"txt", "pdf", "png", "jpg", "jpeg", "gif"}
            && c.maxContentLength == 1073741824 && c.maxStorageBytes == 10737418240
  {
    DefaultExtensionSet();
  }

  // ---------------------------------------------------------------------
  // Start-up check

  datatype StartupOutcome =
    | Serving
      /** Start-up refused; the message reports both sizes in MB. */
    | StorageExceedsDisk(maxStorageMb: int, availableMb: int)

  /** The module-level check of app.py that runs before the app is created:
      the quota must fit in the free disk space less the margin. */
  function Startup(diskFreeBytes: nat, maxStorageMb: int): (r: StartupOutcome)
    ensures r.Serving? <==> MbToBytes(maxStorageMb) + SecurityMarginBytes <= diskFreeBytes
    ensures r.StorageExceedsDisk? ==>
              && r.maxStorageMb == maxStorageMb
              && r.availableMb * BytesPerMb <= diskFreeBytes - SecurityMarginBytes
              && diskFreeBytes - SecurityMarginBytes < (r.availableMb + 1) * BytesPerMb
  {
    var (check, available) := CheckAvailableStorage(diskFreeBytes, MbToBytes(maxStorageMb));
    if !check then
      // Python's `//` floors; so does Dafny's `/` for a positive divisor.
      StorageExceedsDisk(maxStorageMb, available / BytesPerMb)
    else
      Serving
  }

  // ---------------------------------------------------------------------
  // Index page

  /** The free figure of the index page, clamped at zero. */
  function FreeBytes(maxStorageBytes: int, used: int): (r: int)
    ensures r >= 0
    ensures used <= maxStorageBytes ==> r == maxStorageBytes - used && used + r == maxStorageBytes
    ensures used >= maxStorageBytes ==> r == 0
  {
    if maxStorageBytes - used >= 0 then maxStorageBytes - used else 0
  }

  // ---------------------------------------------------------------------
  // The upload folder's contents

  /** Total bytes stored in a folder: the size of every entry, counted once. */
  ghost function MapBytes(m: map<string, Bytes>): nat
    decreases m.Keys
  {
    if m == map[] then 0
    else
      var k :| k in m;
      |m[k]| + MapBytes(m - {k})
  }

  /** The total does not depend on which entry is counted first. */
  lemma {:induction false} MapBytesRemove(m: map<string, Bytes>, k: string)
    requires k in m
    ensures MapBytes(m) == |m[k]| + MapBytes(m - {k})
    decreases m.Keys
  {
    var j :| j in m && MapBytes(m) == |m[j]| + MapBytes(m - {j});
    if j != k {
      MapBytesRemove(m - {j}, k);
      MapBytesRemove(m - {k}, j);
      assert m - {j} - {k} == m - {k} - {j};
    }
  }

  /** Writing `v` under `k` replaces whatever `k` held before. */
  lemma MapBytesUpdate(m: map<string, Bytes>, k: string, v: Bytes)
    ensures MapBytes(m[k := v]) == MapBytes(m - {k}) + |v|
    ensures MapBytes(m - {k}) <= MapBytes(m)
    ensures k !in m ==> MapBytes(m[k := v]) == MapBytes(m) + |v|
  {
    MapBytesRemove(m[k := v], k);
    assert m[k := v] - {k} == m - {k};
    if k in m {
      MapBytesRemove(m, k);
    } else {
      assert m - {k} == m;
    }
  }

  // ---------------------------------------------------------------------
  // Upload

  /** The `file` part of a multipart request: its client-side name and bytes. */
  datatype FilePart = FilePart(filename: string, content: Bytes)

  datatype UploadOutcome =
    | NoFilePart
    | NoFileSelected
    | InvalidFileType
    | StorageLimitReached
    | Uploaded(name: string)
      /** The sanitised name is empty, so the save targets the folder itself
          and fails; nothing is written. */
    | SaveFailed

  /** The checks of `upload_file`, in the order the code makes them. */
  function Decide(parts: map<string, FilePart>, allowedExtensions: set<string>,
                  used: int, maxStorageBytes: int,
                  secureFilename: string -> string): (r: UploadOutcome)
    ensures r == NoFilePart <==> "file" !in parts
    ensures r == NoFileSelected ==> "file" in parts && parts["file"].filename == ""
    ensures r == InvalidFileType ==>
              "file" in parts && !AllowedFile(parts["file"].filename, allowedExtensions)
    ensures r == StorageLimitReached ==>
              && "file" in parts && AllowedFile(parts["file"].filename, allowedExtensions)
              && used + |parts["file"].content| > maxStorageBytes
    ensures r == SaveFailed ==> "file" in parts && secureFilename(parts["file"].filename) == ""
    ensures r.Uploaded? ==>
              && "file" in parts && AllowedFile(parts["file"].filename, allowedExtensions)
              && used + |parts["file"].content| <= maxStorageBytes
              && r.name == secureFilename(parts["file"].filename) && r.name != ""
  {
    if "file" !in parts then NoFilePart
    else
      var file := parts["file"];
      if file.filename == "" then NoFileSelected
      else
        var filename := secureFilename(file.filename);
        if !AllowedFile(file.filename, allowedExtensions) then InvalidFileType
        else if used + |file.content| > maxStorageBytes then StorageLimitReached
        else if filename == "" then SaveFailed
        else Uploaded(filename)
  }

  /** An upload is accepted exactly when every check passes, and then under
      the sanitised name. */
  lemma AcceptedIff(parts: map<string, FilePart>, allowedExtensions: set<string>,
                    used: int, maxStorageBytes: int, secureFilename: string -> string)
    ensures var d := Decide(parts, allowedExtensions, used, maxStorageBytes, secureFilename);
            d.Uploaded? <==>
              && "file" in parts
              && parts["file"].filename != ""
              && AllowedFile(parts["file"].filename, allowedExtensions)
              && used + |parts["file"].content| <= maxStorageBytes
              && secureFilename(parts["file"].filename) != ""
    ensures var d := Decide(parts, allowedExtensions, used, maxStorageBytes, secureFilename);
            d.Uploaded? ==> d.name == secureFilename(parts["file"].filename)
  {
  }

  /** Each check, in the code's order, decides the outcome as soon as it
      fails: no `file` part, then an empty name, then a refused extension,
      then the quota, then an empty sanitised name. */
  lemma DecisionOrder(parts: map<string, FilePart>, allowed: set<string>,
                      used: int, quota: int, secure: string -> string)
    ensures "file" !in parts ==> Decide(parts, allowed, used, quota, secure) == NoFilePart
    ensures "file" in parts && parts["file"].filename == "" ==>
              Decide(parts, allowed, used, quota, secure) == NoFileSelected
    ensures "file" in parts && parts["file"].filename != ""
            && !AllowedFile(parts["file"].filename, allowed) ==>
              Decide(parts, allowed, used, quota, secure) == InvalidFileType
    ensures "file" in parts && parts["file"].filename != ""
            && AllowedFile(parts["file"].filename, allowed)
            && used + |parts["file"].content| > quota ==>
              Decide(parts, allowed, used, quota, secure) == StorageLimitReached
    ensures "file" in parts && parts["file"].filename != ""
            && AllowedFile(parts["file"].filename, allowed)
            && used + |parts["file"].content| <= quota
            && secure(parts["file"].filename) == "" ==>
              Decide(parts, allowed, used, quota, secure) == SaveFailed
  {
  }

  /** First match wins: a request refused for a missing part or name is
      refused the same way whatever the allow-list, usage, quota and
      sanitiser; one refused for its type is refused the same way whatever
      the usage, quota and sanitiser; and one refused for the quota the same
      way whatever the sanitiser. */
  lemma FirstMatchWins(parts: map<string, FilePart>,
                       allowed: set<string>, used: int, quota: int, secure: string -> string,
                       allowed': set<string>, used': int, quota': int, secure': string -> string)
    ensures var d := Decide(parts, allowed, used, quota, secure);
            (d == NoFilePart || d == NoFileSelected) ==>
              Decide(parts, allowed', used', quota', secure') == d
    ensures Decide(parts, allowed, used, quota, secure) == InvalidFileType ==>
              Decide(parts, allowed, used', quota', secure') == InvalidFileType
    ensures Decide(parts, allowed, used, quota, secure) == StorageLimitReached ==>
              Decide(parts, allowed, used, quota, secure') == StorageLimitReached
  {
  }

  /** The type check looks at the name the client sent, not at the sanitised
      name that is stored: a sanitiser that drops the extension does not stop
      the upload. */
  lemma TypeCheckIgnoresStoredName(secure: string -> string)
    requires secure("a.txt") == "a"
    ensures !AllowedFile("a", {"txt"})
    ensures Decide(map["file" := FilePart("a.txt", [])], {"txt"}, 0, 0, secure) == Uploaded("a")
  {
    AllowedFileIgnoresCase();
  }

  /** Nor does a sanitiser that would store an allowed extension let a
      refused client name through. */
  lemma TypeCheckUsesClientName(secure: string -> string)
    requires secure("a.exe") == "a.txt"
    ensures AllowedFile("a.txt", {"txt"})
    ensures Decide(map["file" := FilePart("a.exe", [])], {"txt"}, 0, 0, secure) == InvalidFileType
  {
    AllowedFileIgnoresCase();
    AllowedFileRefuses();
  }

  /** Filling the quota exactly is allowed; going one byte over is not. With
      9000 bytes used of 10000, 500 more bytes are accepted and 1500 are not. */
  lemma QuotaBoundary(filename: string, content: Bytes, allowed: set<string>,
                      used: int, quota: int, secure: string -> string)
    requires filename != "" && AllowedFile(filename, allowed) && secure(filename) != ""
    ensures var d := Decide(map["file" := FilePart(filename, content)], allowed, used, quota, secure);
            (d == StorageLimitReached <==> used + |content| > quota)
            && (d.Uploaded? <==> used + |content| <= quota)
    ensures var d := Decide(map["file" := FilePart(filename, seq(500, _ => 0))], allowed, 9000, 10000, secure);
            d.Uploaded?
    ensures var d := Decide(map["file" := FilePart(filename, seq(1500, _ => 0))], allowed, 9000, 10000, secure);
            d == StorageLimitReached
  {
  }

  /** One upload request against the folder's contents: the outcome and the
      contents afterwards. Only an accepted upload writes, and it writes the
      file's bytes under the sanitised name, replacing any earlier file of
      that name. */
  ghost function UploadStep(files: map<string, Bytes>, parts: map<string, FilePart>,
                            config: Config, secureFilename: string -> string)
    : (r: (UploadOutcome, map<string, Bytes>))
    ensures r.0 == Decide(parts, config.allowedExtensions, MapBytes(files),
                          config.maxStorageBytes, secureFilename)
    ensures r.1.Keys == if r.0.Uploaded? then files.Keys + {r.0.name} else files.Keys
    ensures r.0.Uploaded? ==> "file" in parts && r.1[r.0.name] == parts["file"].content
    ensures forall k :: k in files && !(r.0.Uploaded? && k == r.0.name) ==> r.1[k] == files[k]
  {
    var outcome := Decide(parts, config.allowedExtensions, MapBytes(files),
                          config.maxStorageBytes, secureFilename);
    (outcome, if outcome.Uploaded? then files[outcome.name := parts["file"].content] else files)
  }

  /** A refused upload leaves the folder as it was; an accepted one stores the
      request's bytes under the sanitised name, keeps every other file, and
      the total is what it was without any earlier copy of that name, plus
      the new file. */
  lemma UploadEffect(files: map<string, Bytes>, parts: map<string, FilePart>,
                     config: Config, secure: string -> string)
    ensures var (outcome, files') := UploadStep(files, parts, config, secure);
            !outcome.Uploaded? ==> files' == files
    ensures var (outcome, files') := UploadStep(files, parts, config, secure);
            outcome.Uploaded? ==>
              && "file" in parts
              && outcome.name in files' && files'[outcome.name] == parts["file"].content
              && files'.Keys == files.Keys + {outcome.name}
              && (forall k :: k in files && k != outcome.name ==> files'[k] == files[k])
              && MapBytes(files') == MapBytes(files - {outcome.name}) + |parts["file"].content|
  {
    var (outcome, files') := UploadStep(files, parts, config, secure);
    if outcome.Uploaded? {
      MapBytesUpdate(files, outcome.name, parts["file"].content);
    }
  }

  /** The quota check counts any file the upload will replace, so it is
      conservative: an accepted upload never takes a folder that was within
      the quota beyond it. */
  lemma UploadKeepsQuota(files: map<string, Bytes>, parts: map<string, FilePart>,
                         config: Config, secure: string -> string)
    requires MapBytes(files) <= config.maxStorageBytes
    ensures MapBytes(UploadStep(files, parts, config, secure).1) <= config.maxStorageBytes
  {
    var (outcome, files') := UploadStep(files, parts, config, secure);
    if outcome.Uploaded? {
      MapBytesUpdate(files, outcome.name, parts["file"].content);
    }
  }

  /** Uploading under a name the folder did not have and then deleting that
      name gives the folder back as it was. */
  lemma UploadThenDelete(files: map<string, Bytes>, parts: map<string, FilePart>,
                         config: Config, secure: string -> string)
    requires UploadStep(files, parts, config, secure).0.Uploaded?
    requires UploadStep(files, parts, config, secure).0.name !in files
    ensures var (outcome, files') := UploadStep(files, parts, config, secure);
            DeleteStep(files', outcome.name) == (Deleted(outcome.name), files)
  {
    var (outcome, files') := UploadStep(files, parts, config, secure);
    assert files' - {outcome.name} == files;
  }

  /** Two accepted uploads stored under one name leave only the second
      file's bytes there, and the total counts only that copy. */
  lemma ReuploadKeepsOneCopy(files: map<string, Bytes>, first: map<string, FilePart>,
                             second: map<string, FilePart>, config: Config, secure: string -> string)
    requires UploadStep(files, first, config, secure).0.Uploaded?
    requires UploadStep(UploadStep(files, first, config, secure).1, second, config, secure).0
             == UploadStep(files, first, config, secure).0
    ensures var (outcome, files') := UploadStep(files, first, config, secure);
            var files'' := UploadStep(files', second, config, secure).1;
            && files'' == files[outcome.name := second["file"].content]
            && MapBytes(files'') == MapBytes(files - {outcome.name}) + |second["file"].content|
  {
    var (outcome, files') := UploadStep(files, first, config, secure);
    var y := second["file"].content;
    assert files'[outcome.name := y] == files[outcome.name := y];
    MapBytesUpdate(files, outcome.name, y);
  }

  /** The quota check counts the copy an upload would replace: with one byte
      stored as `a.txt` under a one-byte quota, uploading one byte as `a.txt`
      again is refused, although the folder would still hold one byte. */
  lemma ReuploadCountsOldCopy(secure: string -> string)
    requires secure("a.txt") == "a.txt"
    ensures var files := map["a.txt" := [0]];
            var config := Config("uploads", {"txt"}, BytesPerMb, 1);
            && UploadStep(files, map["file" := FilePart("a.txt", [1])], config, secure).0
               == StorageLimitReached
            && MapBytes(files[secure("a.txt") := [1]]) <= config.maxStorageBytes
  {
    var files: map<string, Bytes> := map["a.txt" := [0]];
    MapBytesRemove(files, "a.txt");
    assert files - {"a.txt"} == map[];
    MapBytesUpdate(files, "a.txt", [1]);
    AllowedFileIgnoresCase();
  }

  // ---------------------------------------------------------------------
  // Delete

  datatype DeleteOutcome = Deleted(name: string) | NotFound(name: string)

  /** One delete request against the folder's contents. */
  function DeleteStep(files: map<string, Bytes>, filename: string)
    : (r: (DeleteOutcome, map<string, Bytes>))
    ensures r.0.name == filename && (r.0.Deleted? <==> filename in files)
    ensures filename !in r.1 && r.1.Keys <= files.Keys
    ensures filename in files ==> r.1[filename := files[filename]] == files
    ensures filename !in files ==> r.1 == files
  {
    if filename in files then (Deleted(filename), files - {filename})
    else (NotFound(filename), files)
  }

  /** Deleting a present name reports success and removes that entry and no
      other, freeing exactly its bytes; deleting an absent name reports it
      not found and changes nothing. */
  lemma DeleteEffect(files: map<string, Bytes>, filename: string)
    ensures var (outcome, files') := DeleteStep(files, filename);
            && (outcome.Deleted? <==> filename in files)
            && (outcome.NotFound? <==> filename !in files)
            && outcome.name == filename
            && filename !in files'
            && files'.Keys == files.Keys - {filename}
            && (forall k :: k in files' ==> files'[k] == files[k])
    ensures filename in files ==>
              MapBytes(DeleteStep(files, filename).1) + |files[filename]| == MapBytes(files)
    ensures filename !in files ==> DeleteStep(files, filename).1 == files
  {
    if filename in files {
      MapBytesRemove(files, filename);
    }
  }

  // ---------------------------------------------------------------------
  // Sequences of requests

  datatype Request = UploadRequest(parts: map<string, FilePart>) | DeleteRequest(filename: string)

  /** The request stores its file under the name `k`, if it is accepted. */
  predicate StoresAs(request: Request, secure: string -> string, k: string) {
    request.UploadRequest? && "file" in request.parts && secure(request.parts["file"].filename) == k
  }

  /** The folder after serving the requests one at a time, in order. Every
      file in it was there before or was stored by one of the uploads. */
  ghost function Serve(files: map<string, Bytes>, requests: seq<Request>,
                       config: Config, secure: string -> string): (r: map<string, Bytes>)
    ensures forall k :: k in r ==>
              k in files || exists i :: 0 <= i < |requests| && StoresAs(requests[i], secure, k)
    decreases |requests|
  {
    if requests == [] then files
    else
      var files' := match requests[0]
        case UploadRequest(parts) => UploadStep(files, parts, config, secure).1
        case DeleteRequest(filename) => DeleteStep(files, filename).1;
      Serve(files', requests[1..], config, secure)
  }

  /** When requests are served one after another, a folder within the quota
      stays within it whatever is uploaded and deleted. */
  lemma {:induction false} ServeKeepsQuota(files: map<string, Bytes>, requests: seq<Request>,
                                           config: Config, secure: string -> string)
    requires MapBytes(files) <= config.maxStorageBytes
    ensures MapBytes(Serve(files, requests, config, secure)) <= config.maxStorageBytes
    decreases |requests|
  {
    if requests != [] {
      match requests[0]
      case UploadRequest(parts) =>
        UploadKeepsQuota(files, parts, config, secure);
        ServeKeepsQuota(UploadStep(files, parts, config, secure).1, requests[1..], config, secure);
      case DeleteRequest(filename) =>
        DeleteEffect(files, filename);
        ServeKeepsQuota(DeleteStep(files, filename).1, requests[1..], config, secure);
    }
  }

  // ---------------------------------------------------------------------
  // The upload folder

  /** The names in a listing. */
  function Names(entries: seq<FileEntry>): set<string> {
    set e | e in entries :: e.name
  }

  /** `entries` lists exactly the files of `files` named in `names`, each
      once and with its size. */
  predicate Lists(entries: seq<FileEntry>, files: map<string, Bytes>, names: set<string>) {
    && Names(entries) == names
    && (forall i, j :: 0 <= i < j < |entries| ==> entries[i].name != entries[j].name)
    && (forall e :: e in entries ==> e.name in files && e.size == |files[e.name]|)
  }

  lemma ListsAppend(entries: seq<FileEntry>, files: map<string, Bytes>, names: set<string>, k: string)
    requires Lists(entries, files, names) && k in files && k !in names
    ensures Lists(entries + [FileEntry(k, |files[k]|)], files, names + {k})
  {
    var e := FileEntry(k, |files[k]|);
    assert Names(entries + [e]) == Names(entries) + {k};
    forall i | 0 <= i < |entries| ensures entries[i].name != k {
      assert entries[i] in entries;
    }
  }

  /** Moving one entry from the folder's remainder onto the listing keeps the
      byte count. */
  lemma ListingStep(entries: seq<FileEntry>, remaining: map<string, Bytes>, k: string, e: FileEntry)
    requires k in remaining && e.size == |remaining[k]|
    ensures FilesBytes(entries + [e]) + MapBytes(remaining - {k}) == FilesBytes(entries) + MapBytes(remaining)
  {
    MapBytesRemove(remaining, k);
    FilesBytesAppend(entries, [e]);
    assert FilesBytes([e]) == e.size by { assert [e][..0] == []; }
  }

  /** What the index request produces: the page's figures, or the error
      raised when the used percentage is computed against a zero quota. */
  datatype IndexPage =
    | Page(names: seq<string>, used: int, free: int)
    | QuotaIsZero

  /** The upload directory and the handlers that read and change it. */
  class UploadFolder {
    /** The files directly in the folder, by name. */
    var files: map<string, Bytes>
    const config: Config
    /** werkzeug's `secure_filename`, which is not part of this model. */
    const secureFilename: string -> string

    /** The folder as the process finds it at start-up. */
    constructor (config: Config, secureFilename: string -> string, existing: map<string, Bytes>)
      ensures this.config == config && this.secureFilename == secureFilename
      ensures files == existing
    {
      this.config := config;
      this.secureFilename := secureFilename;
      files := existing;
    }

    /** The folder's listing, each file once with its size, in no particular
        order; the sizes add up to the folder's total. */
    method ListFiles() returns (entries: seq<FileEntry>)
      ensures Lists(entries, files, files.Keys)
      ensures FilesBytes(entries) == MapBytes(files)
    {
      entries := [];
      var remaining := files;
      while remaining != map[]
        invariant forall k :: k in remaining ==> k in files && remaining[k] == files[k]
        invariant Lists(entries, files, files.Keys - remaining.Keys)
        invariant FilesBytes(entries) + MapBytes(remaining) == MapBytes(files)
        decreases remaining.Keys
      {
        var k :| k in remaining;
        var e := FileEntry(k, |files[k]|);
        ListingStep(entries, remaining, k, e);
        ListsAppend(entries, files, files.Keys - remaining.Keys, k);
        assert files.Keys - remaining.Keys + {k} == files.Keys - (remaining - {k}).Keys;
        entries := entries + [e];
        remaining := remaining - {k};
      }
    }

    /** `get_folder_size` of the upload folder: its one directory walked. */
    method UsedBytes() returns (used: int)
      ensures used == MapBytes(files)
    {
      var entries := ListFiles();
      var walk := [WalkStep(config.uploadFolder, entries)];
      assert WalkBytes(walk) == FilesBytes(entries) by { assert walk[..0] == []; }
      used := GetFolderSize(walk);
    }

    /** The index page's figures: the listing, the bytes used, and the bytes
        still free under the quota. With a zero quota the used percentage
        divides by zero and the page is not shown. */
    method Index() returns (page: IndexPage)
      ensures page.QuotaIsZero? <==> config.maxStorageBytes == 0
      ensures page.Page? ==> (set n | n in page.names) == files.Keys
      ensures page.Page? ==> forall i, j :: 0 <= i < j < |page.names| ==> page.names[i] != page.names[j]
      ensures page.Page? ==> page.used == MapBytes(files)
      ensures page.Page? ==> page.free == FreeBytes(config.maxStorageBytes, page.used)
    {
      var entries := ListFiles();
      var names := seq(|entries|, i requires 0 <= i < |entries| => entries[i].name);
      assert forall n :: n in names <==> exists e :: e in entries && e.name == n by {
        forall n ensures n in names <==> exists e :: e in entries && e.name == n {
          if n in names {
            var i :| 0 <= i < |names| && names[i] == n;
            assert entries[i] in entries;
          }
          if exists e :: e in entries && e.name == n {
            var e :| e in entries && e.name == n;
            var i :| 0 <= i < |entries| && entries[i] == e;
            assert names[i] == n;
          }
        }
      }
      var used := UsedBytes();
      if config.maxStorageBytes == 0 {
        page := QuotaIsZero;
      } else {
        page := Page(names, used, FreeBytes(config.maxStorageBytes, used));
      }
    }

    /** `upload_file`: the checks in order, then the save. */
    method Upload(parts: map<string, FilePart>) returns (outcome: UploadOutcome)
      modifies this
      ensures (outcome, files) == UploadStep(old(files), parts, config, secureFilename)
    {
      if "file" !in parts {
        return NoFilePart;
      }
      var file := parts["file"];
      if file.filename == "" {
        return NoFileSelected;
      }
      var filename := secureFilename(file.filename);
      if !AllowedFile(file.filename, config.allowedExtensions) {
        return InvalidFileType;
      }
      var fileSize := |file.content|;
      var used := UsedBytes();
      if used + fileSize > config.maxStorageBytes {
        return StorageLimitReached;
      }
      if filename == "" {
        return SaveFailed;
      }
      files := files[filename := file.content];
      outcome := Uploaded(filename);
    }

    /** `delete_file`: remove the named file if the folder has it. */
    method Delete(filename: string) returns (outcome: DeleteOutcome)
      modifies this
      ensures (outcome, files) == DeleteStep(old(files), filename)
    {
      if filename in files {
        files := files - {filename};
        outcome := Deleted(filename);
      } else {
        outcome := NotFound(filename);
      }
    }
  }
}
