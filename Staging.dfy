/**
 * Putting report files into `<root>/<lab>/<date>/` folders (main.py:
 * `create_temp_folder`, `copy_file_to_temp_folder`, `create_main_temp_folder`
 * and the per-file body shared by the loops of `preview` and `move`), and
 * what a run of those steps leaves on the disk. The folder a report goes to
 * is given as `folder`, or as `labOf(name)` for a whole run; the batch
 * operations supply the formatted result of `get_lab_name`.
 */
module Staging {
  import opened FileSystem

  const Slash: char := '/'

  /** A single path component that `os.path.normpath` leaves alone. */
  predicate PlainSegment(s: string)
  {
    s != [] && Slash !in s && s != "." && s != ".."
  }

  /** `f"{root}/{lab_name}"`: the folder of a lab. */
  function LabDir(root: Path, folder: string): Path
  {
    JoinPath(root, folder)
  }

  /** `f"{root}/{lab_name}/{today_date}"`: the lab's folder for the day. */
  function DateDir(root: Path, folder: string, today: string): Path
  {
    JoinPath(LabDir(root, folder), today)
  }

  /** `f"{root}/{lab_name}/{today_date}/{file}"`: where a report is copied to. */
  function Destination(root: Path, folder: string, today: string, name: string): Path
  {
    JoinPath(DateDir(root, folder, today), name)
  }

  /** `f"{source_folder}/temp"`: the staging area of a preview. */
  function TempRoot(src: Path): Path
  {
    JoinPath(src, "temp")
  }

  /**
   * The state in which filing `name` from `src` into `root/folder/today`
   * succeeds: the names are single components, the root is a directory, the
   * report is a file, the lab and date folders are not files, and the target
   * is neither a directory nor the report itself.
   */
  ghost predicate Stageable(dirs: set<Path>, files: map<Path, Content>, src: Path, root: Path,
                            name: string, folder: string, today: string)
  {
    Slash !in name && PlainSegment(folder) && PlainSegment(today) &&
    root != [] && root in dirs &&
    JoinPath(src, name) in files &&
    LabDir(root, folder) !in files && DateDir(root, folder, today) !in files &&
    Destination(root, folder, today, name) !in dirs &&
    Destination(root, folder, today, name) != JoinPath(src, name)
  }

  /** The lab folders of the reports in `done`. */
  ghost function LabDirs(root: Path, labOf: string -> string, done: seq<string>): set<Path>
  {
    set x | x in done :: LabDir(root, labOf(x))
  }

  /** The date folders of the reports in `done`. */
  ghost function DateDirs(root: Path, labOf: string -> string, done: seq<string>, today: string): set<Path>
  {
    set x | x in done :: DateDir(root, labOf(x), today)
  }

  /** The targets of the reports in `done`. */
  ghost function Destinations(root: Path, labOf: string -> string, done: seq<string>, today: string): set<Path>
  {
    set x | x in done :: Destination(root, labOf(x), today, x)
  }

  /** Filing one more report adds its own two folders and target to the summary sets. */
  lemma FoldersSnoc(root: Path, labOf: string -> string, done: seq<string>, name: string, today: string)
    ensures LabDirs(root, labOf, done + [name]) == LabDirs(root, labOf, done) + {LabDir(root, labOf(name))}
    ensures DateDirs(root, labOf, done + [name], today) == DateDirs(root, labOf, done, today) + {DateDir(root, labOf(name), today)}
    ensures Destinations(root, labOf, done + [name], today) ==
            Destinations(root, labOf, done, today) + {Destination(root, labOf(name), today, name)}
  {
    forall x | x in done + [name] ensures x == name || x in done {}
  }

  /** Different reports go to different targets, and no target is another report's source. */
  lemma DestinationInjective(src: Path, root: Path, fx: string, fy: string, today: string, x: string, y: string)
    ensures Destination(root, fx, today, x) == Destination(root, fy, today, y) ==> x == y
    ensures Destination(root, fx, today, x) == JoinPath(src, y) ==> x == y
  {
    var d := Destination(root, fx, today, x);
    assert d[|d| - 1] == x;
  }

  /** The directories after filing the reports of `done` one after the other into `root`. */
  ghost function StagedDirs(d0: set<Path>, root: Path, labOf: string -> string, done: seq<string>, today: string): set<Path>
  {
    if done == [] then d0
    else
      var name := done[|done| - 1];
      StagedDirs(d0, root, labOf, done[..|done| - 1], today) + {LabDir(root, labOf(name)), DateDir(root, labOf(name), today)}
  }

  /** The files after copying the reports of `done` from `src` one after the other into `root`. */
  ghost function StagedFiles(f0: map<Path, Content>, src: Path, root: Path, labOf: string -> string,
                             done: seq<string>, today: string): map<Path, Content>
  {
    if done == [] then f0
    else
      var name := done[|done| - 1];
      var f := StagedFiles(f0, src, root, labOf, done[..|done| - 1], today);
      var from := JoinPath(src, name);
      if from in f then f[Destination(root, labOf(name), today, name) := f[from]] else f
  }

  /** Filing reports adds exactly their lab folders and date folders to the directories. */
  lemma {:induction false} StagedDirsAre(d0: set<Path>, root: Path, labOf: string -> string, done: seq<string>, today: string)
    ensures StagedDirs(d0, root, labOf, done, today) == d0 + LabDirs(root, labOf, done) + DateDirs(root, labOf, done, today)
  {
    if done != [] {
      var init := done[..|done| - 1];
      StagedDirsAre(d0, root, labOf, init, today);
      assert done == init + [done[|done| - 1]];
      FoldersSnoc(root, labOf, init, done[|done| - 1], today);
    }
  }

  /**
   * Filing reports adds exactly their targets to the files; each target holds
   * the content its report has in `src`, and every other file is unchanged.
   */
  lemma {:induction false} StagedFilesAre(f0: map<Path, Content>, src: Path, root: Path, labOf: string -> string,
                                          done: seq<string>, today: string)
    requires forall i :: 0 <= i < |done| ==> JoinPath(src, done[i]) in f0
    requires forall i :: 0 <= i < |done| ==> Destination(root, labOf(done[i]), today, done[i]) != JoinPath(src, done[i])
    ensures StagedFiles(f0, src, root, labOf, done, today).Keys == f0.Keys + Destinations(root, labOf, done, today)
    ensures forall i :: 0 <= i < |done| ==>
              StagedFiles(f0, src, root, labOf, done, today)[Destination(root, labOf(done[i]), today, done[i])]
              == f0[JoinPath(src, done[i])]
    ensures forall p :: p in f0 && p !in Destinations(root, labOf, done, today) ==>
              StagedFiles(f0, src, root, labOf, done, today)[p] == f0[p]
  {
    if done != [] {
      var init := done[..|done| - 1];
      var name := done[|done| - 1];
      StagedFilesAre(f0, src, root, labOf, init, today);
      assert done == init + [name];
      FoldersSnoc(root, labOf, init, name, today);
      var f := StagedFiles(f0, src, root, labOf, init, today);
      var from := JoinPath(src, name);
      var dest := Destination(root, labOf(name), today, name);
      assert from in f0 && dest != from;
      assert from !in Destinations(root, labOf, init, today) by {
        forall x | x in init ensures Destination(root, labOf(x), today, x) != from {
          DestinationInjective(src, root, labOf(x), labOf(name), today, x, name);
        }
      }
      var g := f[dest := f[from]];
      assert StagedFiles(f0, src, root, labOf, done, today) == g;
      forall i | 0 <= i < |done|
        ensures g[Destination(root, labOf(done[i]), today, done[i])] == f0[JoinPath(src, done[i])]
      {
        DestinationInjective(src, root, labOf(done[i]), labOf(name), today, done[i], name);
        if i < |init| {
          assert done[i] == init[i];
        }
      }
    }
  }

  /** Filing reports leaves each of their sources in place with its content. */
  lemma SourcesUnchanged(f0: map<Path, Content>, src: Path, root: Path, labOf: string -> string,
                         done: seq<string>, today: string)
    requires forall i :: 0 <= i < |done| ==> JoinPath(src, done[i]) in f0
    requires forall i :: 0 <= i < |done| ==> Destination(root, labOf(done[i]), today, done[i]) != JoinPath(src, done[i])
    ensures forall i :: 0 <= i < |done| ==>
              JoinPath(src, done[i]) in StagedFiles(f0, src, root, labOf, done, today) &&
              StagedFiles(f0, src, root, labOf, done, today)[JoinPath(src, done[i])] == f0[JoinPath(src, done[i])]
  {
    StagedFilesAre(f0, src, root, labOf, done, today);
    forall i | 0 <= i < |done| ensures JoinPath(src, done[i]) !in Destinations(root, labOf, done, today) {
      forall x | x in done ensures Destination(root, labOf(x), today, x) != JoinPath(src, done[i]) {
        DestinationInjective(src, root, labOf(x), labOf(done[i]), today, x, done[i]);
      }
    }
  }

  /**
   * The disk `(d, f)` is `(d0, f0)` after the reports of `done` were filed,
   * one after the other, from `src` into `root`.
   */
  ghost predicate Staged(d0: set<Path>, f0: map<Path, Content>, d: set<Path>, f: map<Path, Content>,
                         src: Path, root: Path, labOf: string -> string, done: seq<string>, today: string)
  {
    d == StagedDirs(d0, root, labOf, done, today) && f == StagedFiles(f0, src, root, labOf, done, today)
  }

  /**
   * When every report of `all` could be filed at the start, report `i` can
   * still be filed after the ones before it were.
   */
  lemma StageableNext(d0: set<Path>, f0: map<Path, Content>, src: Path, root: Path, labOf: string -> string,
                      all: seq<string>, i: nat, today: string)
    requires i < |all|
    requires forall n :: n in all ==> Stageable(d0, f0, src, root, n, labOf(n), today)
    ensures Stageable(StagedDirs(d0, root, labOf, all[..i], today), StagedFiles(f0, src, root, labOf, all[..i], today),
                      src, root, all[i], labOf(all[i]), today)
  {
    var done := all[..i];
    assert forall j :: 0 <= j < |done| ==> done[j] in all;
    StagedDirsAre(d0, root, labOf, done, today);
    StagedFilesAre(f0, src, root, labOf, done, today);
  }

  /** Filing report `i` of `all` extends the staged state by its folders and copy. */
  lemma StagedNext(d0: set<Path>, f0: map<Path, Content>, d: set<Path>, f: map<Path, Content>,
                   src: Path, root: Path, labOf: string -> string, all: seq<string>, i: nat, today: string)
    requires i < |all|
    requires Staged(d0, f0, d, f, src, root, labOf, all[..i], today)
    requires JoinPath(src, all[i]) in f
    ensures Staged(d0, f0, d + {LabDir(root, labOf(all[i])), DateDir(root, labOf(all[i]), today)},
                   f[Destination(root, labOf(all[i]), today, all[i]) := f[JoinPath(src, all[i])]],
                   src, root, labOf, all[..i + 1], today)
  {
    assert all[..i + 1][..i] == all[..i];
  }

  /**
   * `create_temp_folder(temp_path, today_date)`: makes `temp_path` and
   * `temp_path/today_date` where they do not exist yet. The result only adds
   * the two folders to the directories, so a second call changes nothing.
   */
  method CreateTempFolder(fs: Disk, tempPath: Path, today: string)
    requires fs.Valid() && tempPath != [] && PlainSegment(today)
    requires tempPath !in fs.files
    requires !fs.Exists(tempPath) ==> HasParentIn(fs.dirs, tempPath)
    modifies fs
    ensures fs.Valid()
    ensures fs.dirs == old(fs.dirs) + {tempPath} +
                       (if JoinPath(tempPath, today) in old(fs.files) then {} else {JoinPath(tempPath, today)})
    ensures fs.files == old(fs.files)
    ensures fs.Exists(tempPath) && fs.Exists(JoinPath(tempPath, today))
    ensures old(fs.dirs) >= {tempPath, JoinPath(tempPath, today)} ==> fs.dirs == old(fs.dirs)
  {
    if !fs.Exists(tempPath) {
      fs.MakeDir(tempPath);
    }
    var dated := JoinPath(tempPath, today);
    if !fs.Exists(dated) {
      assert dated[..|dated| - 1] == tempPath;
      fs.MakeDir(dated);
    }
  }

  /** `copy_file_to_temp_folder(file_name, temp_folder)`: one `shutil.copyfile`. */
  method CopyFileToTempFolder(fs: Disk, fileName: Path, target: Path)
    requires fs.Valid() && fileName in fs.files && target !in fs.dirs && HasParentIn(fs.dirs, target)
    requires fileName != target
    modifies fs
    ensures fs.Valid()
    ensures fs.dirs == old(fs.dirs) && fs.files == old(fs.files)[target := old(fs.files)[fileName]]
  {
    fs.CopyFile(fileName, target);
  }

  /**
   * `create_main_temp_folder(source_folder)`: removes `source_folder/temp`
   * with everything below it if it exists, then makes it again, empty.
   */
  method CreateMainTempFolder(fs: Disk, src: Path) returns (temp: Path)
    requires fs.Valid() && src in fs.dirs
    requires TempRoot(src) !in fs.files
    modifies fs
    ensures temp == TempRoot(src)
    ensures fs.Valid()
    ensures fs.dirs == PrunedDirs(old(fs.dirs), temp) + {temp}
    ensures fs.files == PrunedFiles(old(fs.files), temp)
    ensures forall p :: p in fs.dirs && InTree(temp, p) ==> p == temp
    ensures forall p :: p in fs.files ==> !InTree(temp, p)
  {
    temp := TempRoot(src);
    if fs.Exists(temp) {
      fs.RemoveTree(temp);
    } else {
      forall p | p in fs.dirs || p in fs.files ensures !InTree(temp, p) {
        NothingBelowMissing(fs.dirs, fs.files, temp, p);
      }
      assert PrunedDirs(fs.dirs, temp) == fs.dirs;
      assert PrunedFiles(fs.files, temp) == fs.files;
    }
    assert src in fs.dirs;
    assert temp[..|temp| - 1] == src;
    fs.MakeDir(temp);
  }

  /**
   * The body of the loops of `preview` and `move` for one report whose lab
   * folder is `folder`: make the lab and date folders below `root` and copy
   * the report into the latter.
   */
  method StageFile(fs: Disk, src: Path, root: Path, name: string, folder: string, today: string)
    requires fs.Valid() && Stageable(fs.dirs, fs.files, src, root, name, folder, today)
    modifies fs
    ensures fs.Valid()
    ensures fs.dirs == old(fs.dirs) + {LabDir(root, folder), DateDir(root, folder, today)}
    ensures fs.files == old(fs.files)[Destination(root, folder, today, name) := old(fs.files)[JoinPath(src, name)]]
  {
    var tempPath := JoinPath(root, folder);
    assert tempPath[..|tempPath| - 1] == root;
    CreateTempFolder(fs, tempPath, today);
    var target := JoinPath(JoinPath(tempPath, today), name);
    assert target[..|target| - 1] == JoinPath(tempPath, today);
    CopyFileToTempFolder(fs, JoinPath(src, name), target);
  }
}
