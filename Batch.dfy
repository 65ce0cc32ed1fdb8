/**
 * The two actions of the window (main.py): `get_source_files`, the preview,
 * which files every report into a fresh `temp` folder below the source
 * folder and builds the lab tree shown to the user, and the move, which files
 * every report into the destination folder. The folders of `FOLDERS`, the
 * listing `os.listdir` returns and the formatted date are parameters.
 */
module Batch {
  import opened Wrappers
  import opened StringOrder
  import opened FileNames
  import opened FileSystem
  import opened Staging
  import opened Grouping

  /** The folder a report is filed under: `f"{get_lab_name(file)}"`. */
  function LabFolderOf(name: string): (folder: string)
    ensures !ValidateFileName(name) ==> folder == "None"
    ensures ValidateFileName(name) ==> GetLabName(name) == Some(folder)
  {
    LabFolder(GetLabName(name))
  }

  /**
   * What `os.listdir(src)` returns: every entry directly below `src`, once
   * each, by its single-component name.
   */
  ghost predicate IsListing(dirs: set<Path>, files: map<Path, Content>, src: Path, listing: seq<string>)
  {
    NoDuplicates(listing) &&
    (forall n :: n in listing ==> PlainSegment(n)) &&
    (forall n :: n in listing <==> JoinPath(src, n) in dirs || JoinPath(src, n) in files)
  }

  /** The entries of `listing` that are files, in the order of the listing. */
  function ListedFiles(files: map<Path, Content>, src: Path, listing: seq<string>): (r: seq<string>)
    ensures forall n :: n in r <==> n in listing && JoinPath(src, n) in files
    ensures NoDuplicates(listing) ==> NoDuplicates(r)
  {
    if listing == [] then []
    else
      var init := ListedFiles(files, src, listing[..|listing| - 1]);
      var n := listing[|listing| - 1];
      assert listing == listing[..|listing| - 1] + [n];
      if JoinPath(src, n) in files then init + [n] else init
  }

  /** The result of `get_source_files(src)`: the files of the listing, sorted. */
  function SourceFiles(files: map<Path, Content>, src: Path, listing: seq<string>): seq<string>
  {
    Sort(ListedFiles(files, src, listing))
  }

  /**
   * The source files are sorted and are exactly the files directly below the
   * source folder, each once.
   */
  lemma SourceFilesAre(dirs: set<Path>, files: map<Path, Content>, src: Path, listing: seq<string>)
    requires IsListing(dirs, files, src, listing)
    ensures Sorted(SourceFiles(files, src, listing))
    ensures NoDuplicates(SourceFiles(files, src, listing))
    ensures forall n :: n in SourceFiles(files, src, listing) <==> JoinPath(src, n) in files
  {
    var listed := ListedFiles(files, src, listing);
    SortKeepsNoDuplicates(listed);
    forall n ensures n in Sort(listed) <==> n in listed {
      assert n in Sort(listed) <==> n in multiset(Sort(listed));
    }
  }

  /**
   * `get_source_files(src)`: collects the entries of the listing that are
   * files, then sorts them.
   */
  method GetSourceFiles(fs: Disk, src: Path, listing: seq<string>) returns (names: seq<string>)
    ensures names == SourceFiles(fs.files, src, listing)
  {
    var found := [];
    var i := 0;
    while i < |listing|
      invariant 0 <= i <= |listing|
      invariant found == ListedFiles(fs.files, src, listing[..i])
    {
      assert listing[..i + 1][..i] == listing[..i];
      if JoinPath(src, listing[i]) in fs.files {
        found := found + [listing[i]];
      }
      i := i + 1;
    }
    assert listing[..i] == listing;
    names := Sort(found);
  }

  /** Every source file is a listed file. */
  lemma SourceFilesListed(files: map<Path, Content>, src: Path, listing: seq<string>)
    ensures forall n :: n in SourceFiles(files, src, listing) ==> n in listing && JoinPath(src, n) in files
  {
    var listed := ListedFiles(files, src, listing);
    forall n | n in Sort(listed) ensures n in listed {
      assert n in multiset(Sort(listed));
    }
  }

  /**
   * Below a freshly made `src/temp`, every source report can be filed: the
   * staging area holds nothing but itself, and no source report lies in it.
   */
  lemma StageableInTemp(dirs: set<Path>, files: map<Path, Content>, src: Path, name: string, folder: string, today: string)
    requires TempRoot(src) in dirs
    requires forall p :: p in dirs && InTree(TempRoot(src), p) ==> p == TempRoot(src)
    requires forall p :: p in files ==> !InTree(TempRoot(src), p)
    requires JoinPath(src, name) in files
    requires Slash !in name && PlainSegment(folder) && PlainSegment(today)
    ensures Stageable(dirs, files, src, TempRoot(src), name, folder, today)
  {
    var temp := TempRoot(src);
    var lab, date, target := LabDir(temp, folder), DateDir(temp, folder, today), Destination(temp, folder, today, name);
    assert lab[..|temp|] == temp && date[..|temp|] == temp && target[..|temp|] == temp;
    assert |target| == |temp| + 3;
  }

  /** A report below the source folder survives the removal of `src/temp`. */
  lemma SourceOutsideTemp(src: Path, name: string, files: map<Path, Content>)
    requires JoinPath(src, name) in files && TempRoot(src) !in files
    ensures !InTree(TempRoot(src), JoinPath(src, name))
  {
    assert JoinPath(src, name) != TempRoot(src);
    assert JoinPath(src, name)[|src|] == name;
    assert TempRoot(src)[|src|] == "temp";
  }

  /**
   * After `src/temp` was emptied, every source report can be filed below it
   * when its name and lab folder are single plain components.
   */
  lemma StageableInFreshTemp(f: map<Path, Content>, d0: set<Path>, f0: map<Path, Content>,
                             src: Path, listing: seq<string>, today: string)
    requires TempRoot(src) !in f && f0 == PrunedFiles(f, TempRoot(src))
    requires TempRoot(src) in d0
    requires forall p :: p in d0 && InTree(TempRoot(src), p) ==> p == TempRoot(src)
    requires PlainSegment(today)
    requires forall n :: n in listing && JoinPath(src, n) in f ==> Slash !in n && PlainSegment(LabFolderOf(n))
    ensures forall n :: n in SourceFiles(f, src, listing) ==> Stageable(d0, f0, src, TempRoot(src), n, LabFolderOf(n), today)
  {
    SourceFilesListed(f, src, listing);
    forall n | n in SourceFiles(f, src, listing) ensures Stageable(d0, f0, src, TempRoot(src), n, LabFolderOf(n), today) {
      SourceOutsideTemp(src, n, f);
      StageableInTemp(d0, f0, src, n, LabFolderOf(n), today);
    }
  }

  /**
   * `preview`: lists the source reports, empties `src/temp`, files every
   * report into `src/temp/<lab>/<today>/`, and groups the reports by lab in
   * a dictionary whose key order is `order`, handing out tree ids as it goes.
   * The disk ends as the emptied staging area with the reports filed one
   * after the other; the groups and ids are those `GroupsOf` computes.
   */
  method Preview(fs: Disk, src: Path, listing: seq<string>, today: string)
      returns (files: seq<string>, order: seq<Key>, tree: map<Key, LabNode>, fileIds: seq<nat>, id: nat)
    requires fs.Valid() && src in fs.dirs && TempRoot(src) !in fs.files
    requires PlainSegment(today)
    requires forall n :: n in listing && JoinPath(src, n) in fs.files ==> Slash !in n && PlainSegment(LabFolderOf(n))
    modifies fs
    ensures files == SourceFiles(old(fs.files), src, listing)
    ensures fs.Valid()
    ensures Staged(PrunedDirs(old(fs.dirs), TempRoot(src)) + {TempRoot(src)}, PrunedFiles(old(fs.files), TempRoot(src)),
                   fs.dirs, fs.files, src, TempRoot(src), LabFolderOf, files, today)
    ensures Groups(order, tree, fileIds, id) == GroupsOf(GetLabName, files)
  {
    files := GetSourceFiles(fs, src, listing);
    ghost var f := fs.files;
    var temp := CreateMainTempFolder(fs, src);
    ghost var d0, f0 := fs.dirs, fs.files;
    StageableInFreshTemp(f, d0, f0, src, listing, today);
    order, tree, fileIds, id := [], map[], [], 0;
    var i := 0;
    while i < |files|
      invariant 0 <= i <= |files|
      invariant fs.Valid()
      invariant Staged(d0, f0, fs.dirs, fs.files, src, temp, LabFolderOf, files[..i], today)
      invariant Groups(order, tree, fileIds, id) == GroupsOf(GetLabName, files[..i])
    {
      var file := files[i];
      StageableNext(d0, f0, src, temp, LabFolderOf, files, i, today);
      StagedNext(d0, f0, fs.dirs, fs.files, src, temp, LabFolderOf, files, i, today);
      var labName := GetLabName(file);
      StageFile(fs, src, temp, file, LabFolder(labName), today);

      GroupsOfNext(GetLabName, files, i);
      order, tree, fileIds, id := RecordReport(order, tree, fileIds, id, file, labName);
      i := i + 1;
    }
    assert files[..i] == files;
  }

  /**
   * `move`: lists the source reports and files every one of them into
   * `dest/<lab>/<today>/`, in the order of the list.
   */
  method Move(fs: Disk, src: Path, listing: seq<string>, dest: Path, today: string) returns (files: seq<string>)
    requires fs.Valid()
    requires forall n :: n in listing && JoinPath(src, n) in fs.files ==>
               Stageable(fs.dirs, fs.files, src, dest, n, LabFolderOf(n), today)
    modifies fs
    ensures files == SourceFiles(old(fs.files), src, listing)
    ensures fs.Valid()
    ensures Staged(old(fs.dirs), old(fs.files), fs.dirs, fs.files, src, dest, LabFolderOf, files, today)
  {
    files := GetSourceFiles(fs, src, listing);
    ghost var d0, f0 := fs.dirs, fs.files;
    SourceFilesListed(fs.files, src, listing);
    var i := 0;
    while i < |files|
      invariant 0 <= i <= |files|
      invariant fs.Valid()
      invariant Staged(d0, f0, fs.dirs, fs.files, src, dest, LabFolderOf, files[..i], today)
    {
      var file := files[i];
      StageableNext(d0, f0, src, dest, LabFolderOf, files, i, today);
      StagedNext(d0, f0, fs.dirs, fs.files, src, dest, LabFolderOf, files, i, today);
      var labName := GetLabName(file);
      StageFile(fs, src, dest, file, LabFolder(labName), today);
      i := i + 1;
    }
    assert files[..i] == files;
  }
}
