/**
 * The part of the operating system the script touches: a tree of directories
 * and files, with `os.path.exists`, `os.mkdir`, `shutil.rmtree` and
 * `shutil.copyfile`. A path is the sequence of its components, so the
 * script's `f"{a}/{b}"` with a one-component `b` appends `b` to `a`. A
 * failing call of the real library (missing parent, existing target,
 * copying onto a directory) is excluded by the methods' preconditions.
 */
module FileSystem {

  /** What a file holds; the model only moves it around. */
  type Content = seq<bv8>

  /** A path below the file-system root, one component per element. */
  type Path = seq<string>

  /** `f"{a}/{b}"` for a single component `b`. */
  function JoinPath(a: Path, b: string): Path
  {
    a + [b]
  }

  /** A path can be created in `dirs` when it is directly below the root or its parent is a directory. */
  predicate HasParentIn(dirs: set<Path>, p: Path)
  {
    |p| == 1 || (|p| > 1 && p[..|p| - 1] in dirs)
  }

  /** `p` is `root` itself or lies somewhere below it. */
  predicate InTree(root: Path, p: Path)
  {
    |root| <= |p| && p[..|root|] == root
  }

  /**
   * A consistent tree: nothing is both a directory and a file, and the
   * parent of every entry is a directory.
   */
  ghost predicate WellFormed(dirs: set<Path>, files: map<Path, Content>)
  {
    dirs !! files.Keys &&
    (forall p :: p in dirs ==> HasParentIn(dirs, p)) &&
    (forall p :: p in files ==> HasParentIn(dirs, p))
  }

  /** The directories that survive `shutil.rmtree(root)`. */
  function PrunedDirs(dirs: set<Path>, root: Path): set<Path>
  {
    set p | p in dirs && !InTree(root, p)
  }

  /** The files that survive `shutil.rmtree(root)`, with their contents. */
  function PrunedFiles(files: map<Path, Content>, root: Path): map<Path, Content>
  {
    map p | p in files && !InTree(root, p) :: files[p]
  }

  /** Whatever lies below the parent of a path lies below that path's tree too. */
  lemma InTreeOfParent(root: Path, q: Path)
    requires |q| > 1 && InTree(root, q[..|q| - 1])
    ensures InTree(root, q)
  {
    assert q[..|q| - 1][..|root|] == q[..|root|];
  }

  /**
   * In a consistent tree, nothing lies below a directory that does not exist:
   * the chain of parents of such an entry would reach it.
   */
  lemma {:induction false} NothingBelowMissing(dirs: set<Path>, files: map<Path, Content>, root: Path, q: Path)
    requires WellFormed(dirs, files) && root != [] && root !in dirs && root !in files
    requires q in dirs || q in files
    ensures !InTree(root, q)
    decreases |q|
  {
    if InTree(root, q) {
      assert q != root;
      var parent := q[..|q| - 1];
      assert HasParentIn(dirs, q);
      if |q| > 1 {
        assert InTree(root, parent) by {
          assert parent[..|root|] == q[..|root|];
        }
        NothingBelowMissing(dirs, files, root, parent);
      }
    }
  }

  /** The machine's directories and files, changed in place by the calls below. */
  class Disk {
    var dirs: set<Path>
    var files: map<Path, Content>

    ghost predicate Valid()
      reads this
    {
      WellFormed(dirs, files)
    }

    /** `os.path.exists(p)`. */
    predicate Exists(p: Path)
      reads this
    {
      p in dirs || p in files
    }

    /** `os.mkdir(p)`: fails unless `p` is new and its parent is a directory. */
    method MakeDir(p: Path)
      requires Valid() && !Exists(p) && HasParentIn(dirs, p)
      modifies this
      ensures Valid()
      ensures dirs == old(dirs) + {p} && files == old(files)
    {
      dirs := dirs + {p};
    }

    /** `shutil.rmtree(p)`: removes the directory `p` and everything below it. */
    method RemoveTree(p: Path)
      requires Valid() && p in dirs
      modifies this
      ensures Valid()
      ensures dirs == PrunedDirs(old(dirs), p) && files == PrunedFiles(old(files), p)
    {
      ghost var d0 := dirs;
      dirs := PrunedDirs(dirs, p);
      files := PrunedFiles(files, p);
      forall q | q in dirs + files.Keys ensures HasParentIn(dirs, q) {
        assert HasParentIn(d0, q);
        if |q| > 1 && InTree(p, q[..|q| - 1]) {
          InTreeOfParent(p, q);
        }
      }
    }

    /**
     * `shutil.copyfile(source, target)`: `target` becomes a file holding the
     * content of `source`; it must not be a directory, must differ from the
     * source, and its parent must be a directory.
     */
    method CopyFile(source: Path, target: Path)
      requires Valid() && source in files && target !in dirs && HasParentIn(dirs, target)
      requires source != target
      modifies this
      ensures Valid()
      ensures dirs == old(dirs) && files == old(files)[target := old(files)[source]]
    {
      files := files[target := files[source]];
    }
  }
}
