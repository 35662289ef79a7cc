/**
 Option, the one wrapper the model needs.
 */
module Wrappers {
  datatype Option<+T> = None | Some(value: T)
}

/**
 The helpers of utils.py: the extension allow-list rule, the folder-size
 walk and the startup disk-space check. The filesystem is an input: a folder
 is a tree of entries whose sizes are already known, and `os.walk` is the
 top-down sequence of its directories.
 */
module Utils {
  import opened Wrappers
  import opened Strings

  // ---------------------------------------------------------------------
  // allowed_file

  /** `name.rsplit(".", 1)[1]`: the text after the last dot, or None when the
      name holds no dot. */
  function Extension(name: string): (r: Option<string>)
    ensures r.None? <==> '.' !in name
    ensures r.Some? ==> '.' !in r.value && |r.value| < |name|
    ensures r.Some? ==> name == name[..|name| - |r.value| - 1] + "." + r.value
  {
    if name == [] then None
    else if name[|name| - 1] == '.' then Some([])
    else
      var init := name[..|name| - 1];
      assert name == init + [name[|name| - 1]];
      match Extension(init)
      case None => None
      case Some(e) =>
        assert init == init[..|init| - |e| - 1] + "." + e;
        Some(e + [name[|name| - 1]])
  }

  /** True when the name has a dot and the lower-cased text after its last
      dot is one of the allowed extensions. */
  predicate AllowedFile(filename: string, allowedExtensions: set<string>)
    ensures AllowedFile(filename, allowedExtensions) <==>
              exists i :: LastDotAt(filename, i) && Lower(filename[i + 1..]) in allowedExtensions
  {
    ExtensionAtLastDot(filename);
    '.' in filename && Lower(Extension(filename).value) in allowedExtensions
  }

  /** Position `i` of the name holds its last dot. */
  predicate LastDotAt(name: string, i: int) {
    0 <= i < |name| && name[i] == '.' && '.' !in name[i + 1..]
  }

  /** The extension is the text after the last dot, wherever that dot is. */
  lemma ExtensionAtLastDot(name: string)
    ensures Extension(name).Some? ==>
              LastDotAt(name, |name| - |Extension(name).value| - 1)
              && name[|name| - |Extension(name).value|..] == Extension(name).value
    ensures forall i :: LastDotAt(name, i) ==> Extension(name) == Some(name[i + 1..])
  {
    if Extension(name).Some? {
      var e := Extension(name).value;
      var j := |name| - |e| - 1;
      assert name == name[..j] + "." + e;
      assert name[j] == '.';
      assert name[j + 1..] == e;
    }
    forall i | LastDotAt(name, i) ensures Extension(name) == Some(name[i + 1..]) {
      assert name == name[..i] + "." + name[i + 1..];
      ExtensionOfSplit(name[..i], name[i + 1..]);
    }
  }

  /** How `Extension` sees one more character at the end of a name. */
  lemma ExtensionSnoc(name: string, c: char)
    ensures c == '.' ==> Extension(name + [c]) == Some([])
    ensures c != '.' && Extension(name).None? ==> Extension(name + [c]).None?
    ensures c != '.' && Extension(name).Some? ==>
              Extension(name + [c]) == Some(Extension(name).value + [c])
  {
    var n := name + [c];
    assert n[..|n| - 1] == name;
    assert n[|n| - 1] == c;
  }

  /** Whatever precedes the last dot, the extension is the dot-free tail. */
  lemma {:induction false} ExtensionOfSplit(stem: string, ext: string)
    requires '.' !in ext
    ensures Extension(stem + "." + ext) == Some(ext)
    decreases |ext|
  {
    if ext == [] {
      assert stem + "." + ext == stem + ['.'];
      ExtensionSnoc(stem, '.');
    } else {
      var init := ext[..|ext| - 1];
      var last := ext[|ext| - 1];
      assert '.' !in init by {
        forall k | 0 <= k < |init| ensures init[k] != '.' { assert init[k] == ext[k]; }
      }
      ExtensionOfSplit(stem, init);
      assert stem + "." + ext == (stem + "." + init) + [last];
      ExtensionSnoc(stem + "." + init, last);
      assert init + [last] == ext;
    }
  }

  /** The allow-list rule, stated without `Extension`: a file is allowed
      exactly when it splits as `stem + "." + ext` with a dot-free `ext` whose
      lower-case form is allowed. */
  lemma AllowedFileIff(filename: string, allowedExtensions: set<string>)
    ensures AllowedFile(filename, allowedExtensions) <==>
      exists stem: string, ext: string ::
        filename == stem + "." + ext && '.' !in ext && Lower(ext) in allowedExtensions
  {
    if AllowedFile(filename, allowedExtensions) {
      var ext := Extension(filename).value;
      var stem := filename[..|filename| - |ext| - 1];
      assert filename == stem + "." + ext;
    }
    if exists stem: string, ext: string ::
         filename == stem + "." + ext && '.' !in ext && Lower(ext) in allowedExtensions
    {
      var stem: string, ext: string :|
        filename == stem + "." + ext && '.' !in ext && Lower(ext) in allowedExtensions;
      ExtensionOfSplit(stem, ext);
      assert '.' in filename by { assert filename[|stem|] == '.'; }
    }
  }

  /** A name without a dot is never allowed, whatever the allow-list. */
  lemma NoDotNeverAllowed(filename: string, allowedExtensions: set<string>)
    requires '.' !in filename
    ensures !AllowedFile(filename, allowedExtensions)
  {
  }

  /** A name ending in a dot has the empty extension: it is allowed exactly
      when the empty string is on the list. */
  lemma TrailingDot(stem: string, allowedExtensions: set<string>)
    ensures AllowedFile(stem + ".", allowedExtensions) <==> "" in allowedExtensions
  {
    ExtensionOfSplit(stem, "");
    assert stem + "." + "" == stem + ".";
    assert (stem + ".")[|stem|] == '.';
  }

  /** Upper case in the name is matched after lower-casing. */
  lemma AllowedFileIgnoresCase()
    ensures AllowedFile("a.txt", {"txt", "pdf"}) && AllowedFile("a.txt", {"txt"})
    ensures AllowedFile("a.TXT", {"txt"})
  {
    ExtensionOfSplit("a", "txt");
    assert "a.txt" == "a" + "." + "txt";
    LowerOfTxt();
    ExtensionOfSplit("a", "TXT");
    assert "a.TXT" == "a" + "." + "TXT";
  }

  lemma LowerOfTxt()
    ensures Lower("txt") == "txt" && Lower("TXT") == "txt"
  {
    var l := Lower("TXT");
    assert l[0] == LowerChar('T') == 't';
    assert l[1] == LowerChar('X') == 'x';
    assert l[2] == LowerChar('T') == 't';
  }

  /** An extension off the list, or none at all, is refused. */
  lemma AllowedFileRefuses()
    ensures !AllowedFile("a", {"txt", "pdf"})
    ensures !AllowedFile("a.exe", {"txt"})
  {
    ExtensionOfSplit("a", "exe");
    assert "a.exe" == "a" + "." + "exe";
    assert Lower("exe") == "exe";
  }

  /** Only the text after the last dot is the extension. */
  lemma AllowedFileLastExtension()
    ensures AllowedFile("a.tar.gz", {"gz"}) && !AllowedFile("a.tar.gz", {"tar"})
  {
    ExtensionOfSplit("a.tar", "gz");
    assert "a.tar.gz" == "a.tar" + "." + "gz";
    assert Lower("gz") == "gz";
  }

  // ---------------------------------------------------------------------
  // get_folder_size

  /** A regular file as `os.path.getsize` sees it. */
  datatype FileEntry = FileEntry(name: string, size: nat)

  /** One triple of `os.walk`, reduced to its files with their sizes. */
  datatype WalkStep = WalkStep(dirpath: string, files: seq<FileEntry>)

  /** Sum of the sizes of a list of files. */
  function FilesBytes(files: seq<FileEntry>): nat {
    if files == [] then 0 else FilesBytes(files[..|files| - 1]) + files[|files| - 1].size
  }

  /** Sum of the sizes of every file seen in a walk. */
  function WalkBytes(walk: seq<WalkStep>): nat {
    if walk == [] then 0 else WalkBytes(walk[..|walk| - 1]) + FilesBytes(walk[|walk| - 1].files)
  }

  lemma {:induction false} FilesBytesAppend(a: seq<FileEntry>, b: seq<FileEntry>)
    ensures FilesBytes(a + b) == FilesBytes(a) + FilesBytes(b)
    decreases |b|
  {
    if b == [] {
      assert a + b == a;
    } else {
      var b' := b[..|b| - 1];
      FilesBytesAppend(a, b');
      assert (a + b)[..|a + b| - 1] == a + b';
    }
  }

  lemma {:induction false} WalkBytesAppend(a: seq<WalkStep>, b: seq<WalkStep>)
    ensures WalkBytes(a + b) == WalkBytes(a) + WalkBytes(b)
    decreases |b|
  {
    if b == [] {
      assert a + b == a;
    } else {
      var b' := b[..|b| - 1];
      WalkBytesAppend(a, b');
      assert (a + b)[..|a + b| - 1] == a + b';
    }
  }

  /** `get_folder_size`: the nested loops over the walk and its files,
      accumulating every file size into `total`. */
  method GetFolderSize(walk: seq<WalkStep>) returns (total: int)
    ensures total == WalkBytes(walk)
  {
    total := 0;
    var i := 0;
    while i < |walk|
      invariant 0 <= i <= |walk|
      invariant total == WalkBytes(walk[..i])
    {
      var files := walk[i].files;
      var j := 0;
      while j < |files|
        invariant 0 <= j <= |files|
        invariant total == WalkBytes(walk[..i]) + FilesBytes(files[..j])
      {
        assert files[..j + 1][..j] == files[..j];
        total := total + files[j].size;
        j := j + 1;
      }
      assert files[..j] == files;
      assert walk[..i + 1][..i] == walk[..i];
      i := i + 1;
    }
    assert walk[..i] == walk;
  }

  /** The walk's bytes, split around its `i`-th directory. */
  lemma WalkBytesAround(walk: seq<WalkStep>, i: nat)
    requires i < |walk|
    ensures WalkBytes(walk) == WalkBytes(walk[..i]) + FilesBytes(walk[i].files) + WalkBytes(walk[i + 1..])
  {
    var head := walk[..i + 1];
    WalkBytesAppend(head, walk[i + 1..]);
    assert head + walk[i + 1..] == walk;
    assert head[..|head| - 1] == walk[..i];
    assert head[|head| - 1] == walk[i];
    assert WalkBytes(head) == WalkBytes(walk[..i]) + FilesBytes(walk[i].files);
  }

  /** A file list's bytes, split around a position. */
  lemma FilesBytesAround(fs: seq<FileEntry>, j: nat, e: FileEntry)
    requires j <= |fs|
    ensures FilesBytes(fs[..j] + [e] + fs[j..]) == FilesBytes(fs) + e.size
  {
    FilesBytesAppend(fs[..j] + [e], fs[j..]);
    FilesBytesAppend(fs[..j], [e]);
    FilesBytesAppend(fs[..j], fs[j..]);
    assert fs[..j] + fs[j..] == fs;
    assert FilesBytes([e]) == e.size by { assert [e][..0] == []; }
  }

  /** Putting one more file of size `e.size` anywhere in any directory of the
      walk raises the folder size by exactly that much. */
  lemma AddFileToWalk(walk: seq<WalkStep>, i: nat, j: nat, e: FileEntry)
    requires i < |walk| && j <= |walk[i].files|
    ensures var fs := walk[i].files;
            WalkBytes(walk[i := WalkStep(walk[i].dirpath, fs[..j] + [e] + fs[j..])])
              == WalkBytes(walk) + e.size
  {
    var fs := walk[i].files;
    var walk' := walk[i := WalkStep(walk[i].dirpath, fs[..j] + [e] + fs[j..])];
    WalkBytesAround(walk, i);
    WalkBytesAround(walk', i);
    assert walk'[..i] == walk[..i];
    assert walk'[i + 1..] == walk[i + 1..];
    FilesBytesAround(fs, j, e);
  }

  /** A directory tree: the files directly in it and its sub-directories. */
  datatype Folder = Folder(path: string, files: seq<FileEntry>, subfolders: seq<Folder>)

  /** `os.walk(folder)` top-down: the folder itself, then the walk of each
      sub-directory in turn. */
  function Walk(f: Folder): (r: seq<WalkStep>)
    decreases f, 1
  {
    [WalkStep(f.path, f.files)] + WalkAll(f.subfolders)
  }

  function WalkAll(fs: seq<Folder>): (r: seq<WalkStep>)
    decreases fs, 0
  {
    if fs == [] then [] else Walk(fs[0]) + WalkAll(fs[1..])
  }

  /** The bytes of all files in the tree, counted straight from its shape. */
  function TreeBytes(f: Folder): nat
    decreases f, 1
  {
    FilesBytes(f.files) + ForestBytes(f.subfolders)
  }

  function ForestBytes(fs: seq<Folder>): nat
    decreases fs, 0
  {
    if fs == [] then 0 else TreeBytes(fs[0]) + ForestBytes(fs[1..])
  }

  /** Walking the tree sees every file of every sub-directory once: the walk's
      byte count is the tree's. */
  lemma {:induction false} WalkBytesOfTree(f: Folder)
    ensures WalkBytes(Walk(f)) == TreeBytes(f)
    decreases f, 1
  {
    var top := [WalkStep(f.path, f.files)];
    WalkBytesAppend(top, WalkAll(f.subfolders));
    assert WalkBytes(top) == FilesBytes(f.files) by { assert top[..0] == []; }
    WalkAllBytes(f.subfolders);
  }

  lemma {:induction false} WalkAllBytes(fs: seq<Folder>)
    ensures WalkBytes(WalkAll(fs)) == ForestBytes(fs)
    decreases fs, 0
  {
    if fs != [] {
      WalkBytesAppend(Walk(fs[0]), WalkAll(fs[1..]));
      WalkBytesOfTree(fs[0]);
      WalkAllBytes(fs[1..]);
    }
  }

  /** No file anywhere in the tree. */
  predicate HasNoFiles(f: Folder)
    decreases f, 1
  {
    f.files == [] && NoneHaveFiles(f.subfolders)
  }

  predicate NoneHaveFiles(fs: seq<Folder>)
    decreases fs, 0
  {
    fs == [] || (HasNoFiles(fs[0]) && NoneHaveFiles(fs[1..]))
  }

  /** A tree of empty directories has size 0. */
  lemma {:induction false} EmptyTreeBytes(f: Folder)
    requires HasNoFiles(f)
    ensures WalkBytes(Walk(f)) == 0
  {
    WalkBytesOfTree(f);
    EmptyForestBytes(f.subfolders);
  }

  lemma {:induction false} EmptyForestBytes(fs: seq<Folder>)
    requires NoneHaveFiles(fs)
    ensures ForestBytes(fs) == 0
    decreases fs, 0
  {
    if fs != [] {
      EmptyForestBytes(fs[0].subfolders);
      EmptyForestBytes(fs[1..]);
    }
  }

  // ---------------------------------------------------------------------
  // check_available_storage

  /** The fixed safety margin kept free on the volume: one GiB. */
  const SecurityMarginBytes: int := 1073741824

  /** `check_available_storage`: the free bytes `shutil.disk_usage` reports,
      less the margin, and whether the configured quota fits in them. The
      reported amount is not clamped, so it is negative on a nearly full disk. */
  function CheckAvailableStorage(diskFreeBytes: nat, maxStorageBytes: int): (r: (bool, int))
    ensures r.1 == diskFreeBytes - SecurityMarginBytes
    ensures r.0 <==> maxStorageBytes <= r.1
  {
    if diskFreeBytes - SecurityMarginBytes < maxStorageBytes then
      (false, diskFreeBytes - SecurityMarginBytes)
    else
      (true, diskFreeBytes - SecurityMarginBytes)
  }

  /** The margin is 1024^3 bytes, a quota equal to what remains still fits,
      one byte more does not, and on a disk with less than the margin free
      every quota that is not negative is refused with a negative figure. */
  lemma CheckAvailableStorageCases(diskFreeBytes: nat, maxStorageBytes: int)
    ensures SecurityMarginBytes == 1024 * 1024 * 1024
    ensures CheckAvailableStorage(diskFreeBytes, diskFreeBytes - SecurityMarginBytes).0
    ensures !CheckAvailableStorage(diskFreeBytes, diskFreeBytes - SecurityMarginBytes + 1).0
    ensures diskFreeBytes < SecurityMarginBytes && 0 <= maxStorageBytes ==>
              CheckAvailableStorage(diskFreeBytes, maxStorageBytes) == (false, diskFreeBytes - SecurityMarginBytes)
              && diskFreeBytes - SecurityMarginBytes < 0
  {
  }
}
