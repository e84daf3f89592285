/**
 * The filesystem as the set-up code sees it through `fs.existsSync`,
 * `fs.rmSync(…, { recursive: true, force: true })`,
 * `fs.mkdirSync(…, { recursive: true })`, `fs.writeFileSync` and a git clone.
 * A path is a sequence of segments below the root `[]`; a `Tree` is the set of
 * directories and the map from file paths to contents.
 */
module Files {
  type Path = seq<string>

  datatype Tree = Tree(dirs: set<Path>, files: map<Path, string>)

  /**
   * A tree as a real filesystem has it: the root is implicit, no path is both
   * a directory and a file, and every proper ancestor of an entry is a
   * directory.
   */
  ghost predicate WellFormed(t: Tree)
  {
    && [] !in t.dirs && [] !in t.files
    && (forall q :: q in t.dirs ==> q !in t.files)
    && (forall q, k :: q in t.dirs && 0 < k < |q| ==> q[..k] in t.dirs)
    && (forall q, k :: q in t.files && 0 < k < |q| ==> q[..k] in t.dirs)
  }

  /** `fs.existsSync(p)`. */
  predicate Exists(t: Tree, p: Path)
  {
    p == [] || p in t.dirs || p in t.files
  }

  predicate IsDir(t: Tree, p: Path)
  {
    p == [] || p in t.dirs
  }

  /** Nothing lies strictly below `p`. */
  ghost predicate NothingBelow(t: Tree, p: Path)
  {
    (forall q :: q in t.dirs ==> !(p < q)) && (forall q :: q in t.files ==> !(p < q))
  }

  /** The tree after `fs.rmSync(p, { recursive: true, force: true })`. */
  function Removed(t: Tree, p: Path): Tree
  {
    Tree(set q | q in t.dirs && !(p <= q), map q | q in t.files && !(p <= q) :: t.files[q])
  }

  /** `fs.mkdirSync(p, { recursive: true })` succeeds: no prefix of `p` is a file. */
  predicate CanMkdir(t: Tree, p: Path)
  {
    forall k :: 0 < k <= |p| ==> p[..k] !in t.files
  }

  /** The tree after a successful `fs.mkdirSync(p, { recursive: true })`. */
  function MadeDirs(t: Tree, p: Path): Tree
  {
    Tree(t.dirs + set k | 0 < k <= |p| :: p[..k], t.files)
  }

  /** `fs.writeFileSync(p, …)` succeeds: the parent is a directory and `p` is not one. */
  predicate CanWrite(t: Tree, p: Path)
  {
    |p| > 0 && IsDir(t, p[..|p| - 1]) && p !in t.dirs
  }

  /** The tree after a successful `fs.writeFileSync(p, content)`. */
  function Written(t: Tree, p: Path, content: string): Tree
  {
    Tree(t.dirs, t.files[p := content])
  }

  /**
   * What a clone delivers: files at non-empty relative paths, none of them
   * the ancestor of another.
   */
  ghost predicate Shaped(tree: map<Path, string>)
  {
    && (forall r :: r in tree ==> |r| > 0)
    && (forall r1, r2 :: r1 in tree && r2 in tree ==> !(r1 < r2))
  }

  /** The directories a clone into `base` creates. */
  function ClonedDirs(base: Path, tree: map<Path, string>): set<Path>
  {
    set r, k | r in tree && 0 < k < |r| :: base + r[..k]
  }

  /** The files a clone of `tree` into `base` creates, at their full paths. */
  function ClonedFiles(base: Path, tree: map<Path, string>): (m: map<Path, string>)
    ensures forall r :: r in tree ==> base + r in m && m[base + r] == tree[r]
    ensures forall q :: q in m ==> base <= q && q[|base|..] in tree
  {
    map q | q in (set r | r in tree :: base + r) :: tree[q[|base|..]]
  }

  /** The tree after a successful clone of `tree` into `base`. */
  function WithClone(t: Tree, base: Path, tree: map<Path, string>): Tree
  {
    Tree(t.dirs + ClonedDirs(base, tree), t.files + ClonedFiles(base, tree))
  }

  /** `a` and `b` agree on every path that is neither above nor below `p`. */
  ghost predicate SameOutside(a: Tree, b: Tree, p: Path)
  {
    && (forall q :: !(p <= q) && !(q <= p) ==> (q in a.dirs <==> q in b.dirs))
    && (forall q :: !(p <= q) && !(q <= p) ==> (q in a.files <==> q in b.files))
    && (forall q :: !(p <= q) && !(q <= p) && q in a.files && q in b.files ==> a.files[q] == b.files[q])
  }

  /** A prefix of `base + r`: a prefix of `base`, or `base` with a prefix of `r`. */
  lemma PrefixOfAppend(base: Path, r: Path, m: nat)
    requires m <= |base| + |r|
    ensures m <= |base| ==> (base + r)[..m] == base[..m]
    ensures m > |base| ==> (base + r)[..m] == base + r[..m - |base|]
  {
  }

  /**
   * Removing `p` removes `p` and everything below it and nothing else, and
   * keeps the tree well formed.
   */
  lemma RemovedWellFormed(t: Tree, p: Path)
    requires WellFormed(t)
    ensures WellFormed(Removed(t, p))
    ensures p != [] ==> !Exists(Removed(t, p), p)
    ensures NothingBelow(Removed(t, p), p)
  {
    var r := Removed(t, p);
    forall q, k | q in r.dirs && 0 < k < |q| ensures q[..k] in r.dirs {
      assert q[..k] in t.dirs;
      assert p <= q[..k] ==> p <= q;
    }
    forall q, k | q in r.files && 0 < k < |q| ensures q[..k] in r.dirs {
      assert q[..k] in t.dirs;
      assert p <= q[..k] ==> p <= q;
    }
  }

  /** A prefix of `q` is the slice of `q` of its own length. */
  lemma PrefixIsSlice(p: Path, q: Path)
    ensures p <= q ==> p == q[..|p|]
  {
    if p <= q { assert p == q[..|p|]; }
  }

  /** In a well-formed tree, nothing lies below a path that does not exist. */
  lemma AbsentHasNothingBelow(t: Tree, p: Path)
    requires WellFormed(t) && !Exists(t, p)
    ensures NothingBelow(t, p)
  {
    forall q | q in t.dirs ensures !(p < q) {
      PrefixIsSlice(p, q);
      if |p| < |q| { assert q[..|p|] in t.dirs; }
    }
    forall q | q in t.files ensures !(p < q) {
      PrefixIsSlice(p, q);
      if |p| < |q| { assert q[..|p|] in t.dirs; }
    }
  }

  /**
   * A successful recursive mkdir leaves `p` a directory, adds only `p` and its
   * ancestors, and keeps the tree well formed; it puts nothing below `p`.
   */
  lemma MadeDirsWellFormed(t: Tree, p: Path)
    requires WellFormed(t) && CanMkdir(t, p)
    ensures WellFormed(MadeDirs(t, p)) && IsDir(MadeDirs(t, p), p)
    ensures NothingBelow(t, p) ==> NothingBelow(MadeDirs(t, p), p)
  {
    var m := MadeDirs(t, p);
    forall q, k | q in m.dirs && 0 < k < |q| ensures q[..k] in m.dirs {
      if q !in t.dirs {
        var j :| 0 < j <= |p| && q == p[..j];
        assert q[..k] == p[..k];
      }
    }
    if p != [] {
      assert p == p[..|p|];
    }
  }

  /** The cloned directories lie strictly below `base`, and none is a cloned file. */
  lemma ClonedDirsBelow(base: Path, tree: map<Path, string>, q: Path)
    requires Shaped(tree) && q in ClonedDirs(base, tree)
    ensures base < q && q !in ClonedFiles(base, tree)
  {
    var r, k :| r in tree && 0 < k < |r| && q == base + r[..k];
    assert q[|base|..] == r[..k];
    assert r[..k] < r;
  }

  /** The cloned files lie strictly below `base`. */
  lemma ClonedFilesBelow(base: Path, tree: map<Path, string>, q: Path)
    requires Shaped(tree) && q in ClonedFiles(base, tree)
    ensures base < q
  {
    assert q[|base|..] in tree;
  }

  /** A prefix of an entry cloned below `base` is an ancestor of `base` or a cloned directory. */
  lemma ClonedPrefix(t: Tree, base: Path, tree: map<Path, string>, r: Path, k: nat)
    requires WellFormed(t) && IsDir(t, base) && r in tree && 0 < k < |base| + |r|
    ensures (base + r)[..k] in t.dirs + ClonedDirs(base, tree)
  {
    PrefixOfAppend(base, r, k);
    if k < |base| {
      assert base[..k] in t.dirs;
    } else if k == |base| {
      assert base[..k] == base;
    } else {
      assert (base + r)[..k] == base + r[..k - |base|];
    }
  }

  /** After a clone into an empty directory, no path is both a directory and a file. */
  lemma WithCloneDisjoint(t: Tree, base: Path, tree: map<Path, string>, q: Path)
    requires WellFormed(t) && NothingBelow(t, base) && Shaped(tree)
    requires q in WithClone(t, base, tree).dirs
    ensures q !in WithClone(t, base, tree).files
  {
    var cd, cf := ClonedDirs(base, tree), ClonedFiles(base, tree);
    if q in cd {
      ClonedDirsBelow(base, tree, q);
    } else {
      assert q in cf ==> base < q by {
        if q in cf { ClonedFilesBelow(base, tree, q); }
      }
    }
  }

  /** Every ancestor of a cloned directory is a directory after the clone. */
  lemma ClonedDirAncestors(t: Tree, base: Path, tree: map<Path, string>, q: Path, k: nat)
    requires WellFormed(t) && IsDir(t, base)
    requires q in ClonedDirs(base, tree) && 0 < k < |q|
    ensures q[..k] in t.dirs + ClonedDirs(base, tree)
  {
    var r, j :| r in tree && 0 < j < |r| && q == base + r[..j];
    assert q[..k] == (base + r)[..k];
    ClonedPrefix(t, base, tree, r, k);
  }

  /** Every ancestor of a cloned file is a directory after the clone. */
  lemma ClonedFileAncestors(t: Tree, base: Path, tree: map<Path, string>, q: Path, k: nat)
    requires WellFormed(t) && IsDir(t, base)
    requires q in ClonedFiles(base, tree) && 0 < k < |q|
    ensures q[..k] in t.dirs + ClonedDirs(base, tree)
  {
    var r := q[|base|..];
    assert q == base + r;
    ClonedPrefix(t, base, tree, r, k);
  }

  /**
   * A clone of a well-shaped tree into an empty directory keeps the tree well
   * formed.
   */
  lemma WithCloneWellFormed(t: Tree, base: Path, tree: map<Path, string>)
    requires WellFormed(t) && IsDir(t, base) && NothingBelow(t, base) && Shaped(tree)
    ensures WellFormed(WithClone(t, base, tree))
  {
    var w := WithClone(t, base, tree);
    forall q | q in w.dirs ensures q !in w.files {
      WithCloneDisjoint(t, base, tree, q);
    }
    forall q, k | q in w.dirs && 0 < k < |q| ensures q[..k] in w.dirs {
      if q in ClonedDirs(base, tree) { ClonedDirAncestors(t, base, tree, q, k); }
    }
    forall q, k | q in w.files && 0 < k < |q| ensures q[..k] in w.dirs {
      if q in ClonedFiles(base, tree) { ClonedFileAncestors(t, base, tree, q, k); }
    }
    assert [] !in w.dirs by {
      if [] in ClonedDirs(base, tree) { ClonedDirsBelow(base, tree, []); }
    }
    assert [] !in w.files by {
      if [] in ClonedFiles(base, tree) { ClonedFilesBelow(base, tree, []); }
    }
  }

  /** A successful write keeps the tree well formed. */
  lemma WrittenWellFormed(t: Tree, p: Path, content: string)
    requires WellFormed(t) && CanWrite(t, p)
    ensures WellFormed(Written(t, p, content))
  {
    forall k | 0 < k < |p| ensures p[..k] in t.dirs {
      var parent := p[..|p| - 1];
      if k < |p| - 1 {
        assert p[..k] == parent[..k];
      }
    }
  }

  /** Removing `p` touches nothing outside `p`. */
  lemma RemovedFrame(t: Tree, p: Path)
    ensures SameOutside(t, Removed(t, p), p)
  {
  }

  /** A recursive mkdir of `p` touches nothing outside `p`. */
  lemma MadeDirsFrame(t: Tree, p: Path)
    ensures SameOutside(t, MadeDirs(t, p), p)
  {
  }

  /** A clone into `base` touches nothing outside `base`. */
  lemma WithCloneFrame(t: Tree, base: Path, tree: map<Path, string>)
    ensures SameOutside(t, WithClone(t, base, tree), base)
  {
  }

  /** A write below `base` touches nothing outside `base`. */
  lemma WrittenFrame(t: Tree, p: Path, content: string, base: Path)
    requires base <= p
    ensures SameOutside(t, Written(t, p, content), base)
  {
  }

  lemma SameOutsideTransitive(a: Tree, b: Tree, c: Tree, p: Path)
    requires SameOutside(a, b, p) && SameOutside(b, c, p)
    ensures SameOutside(a, c, p)
  {
  }

  /** Two prefixes of one path are prefixes one of the other. */
  lemma PrefixesComparable(p: Path, q: Path, s: Path)
    requires p <= s && q <= s
    ensures p <= q || q <= p
  {
    if |q| <= |p| { assert q == p[..|q|]; } else { assert p == q[..|p|]; }
  }

  /** A path outside `p` is outside every path below `p`. */
  lemma OutsideDeeper(p: Path, p': Path, q: Path)
    requires p <= p' && !(p <= q) && !(q <= p)
    ensures !(p' <= q) && !(q <= p')
  {
    assert p' <= q ==> p <= q;
    if q <= p' { PrefixesComparable(p, q, p'); }
  }

  /** What holds outside a deeper path `p'` holds outside its ancestor `p`. */
  lemma SameOutsideWiden(a: Tree, b: Tree, p: Path, p': Path)
    requires SameOutside(a, b, p') && p <= p'
    ensures SameOutside(a, b, p)
  {
    forall q | !(p <= q) && !(q <= p) && (q in a.dirs || q in b.dirs || q in a.files || q in b.files)
      ensures !(p' <= q) && !(q <= p')
    {
      OutsideDeeper(p, p', q);
    }
  }

  /** What the git clone capability reports: failure, or the files it fetched. */
  datatype CloneOutcome = CloneFailure | Cloned(tree: map<Path, string>)

  /** The filesystem the set-up code changes, one call at a time. */
  class FileSystem {
    var dirs: set<Path>
    var files: map<Path, string>

    /** The current contents as a value. */
    function View(): Tree
      reads this
    {
      Tree(dirs, files)
    }

    ghost predicate Valid()
      reads this
    {
      WellFormed(View())
    }

    constructor (t: Tree)
      requires WellFormed(t)
      ensures Valid() && View() == t
    {
      dirs, files := t.dirs, t.files;
    }

    /** `fs.existsSync(p)`: a directory or a file is at `p`. */
    method ExistsSync(p: Path) returns (b: bool)
      ensures b == Exists(View(), p)
    {
      b := p == [] || p in dirs || p in files;
    }

    /** `fs.rmSync(p, { recursive: true, force: true })`: never fails. */
    method RmSync(p: Path)
      requires Valid()
      modifies this
      ensures Valid() && View() == Removed(old(View()), p)
    {
      RemovedWellFormed(View(), p);
      dirs := set q | q in dirs && !(p <= q);
      files := map q | q in files && !(p <= q) :: files[q];
    }

    /**
     * `fs.mkdirSync(p, { recursive: true })`: fails, changing nothing, when a
     * prefix of `p` is a file; otherwise `p` and its ancestors are directories.
     */
    method MkdirSync(p: Path) returns (ok: bool)
      requires Valid()
      modifies this
      ensures Valid() && ok == CanMkdir(old(View()), p)
      ensures View() == if ok then MadeDirs(old(View()), p) else old(View())
    {
      ok := forall k :: 0 < k <= |p| ==> p[..k] !in files;
      if ok {
        MadeDirsWellFormed(View(), p);
        dirs := dirs + set k | 0 < k <= |p| :: p[..k];
      }
    }

    /**
     * `fs.writeFileSync(p, content)`: fails, changing nothing, when the parent
     * of `p` is not a directory or `p` is one; otherwise `p` holds `content`.
     */
    method WriteFileSync(p: Path, content: string) returns (ok: bool)
      requires Valid()
      modifies this
      ensures Valid() && ok == CanWrite(old(View()), p)
      ensures View() == if ok then Written(old(View()), p, content) else old(View())
    {
      ok := |p| > 0 && (p[..|p| - 1] == [] || p[..|p| - 1] in dirs) && p !in dirs;
      if ok {
        WrittenWellFormed(View(), p, content);
        files := files[p := content];
      }
    }

    /**
     * A shallow git clone into the empty directory `base`, whose result the
     * clone capability decides: on failure nothing changes.
     */
    method Clone(base: Path, outcome: CloneOutcome) returns (ok: bool)
      requires Valid() && IsDir(View(), base) && NothingBelow(View(), base)
      requires outcome.Cloned? ==> Shaped(outcome.tree)
      modifies this
      ensures Valid() && ok == outcome.Cloned?
      ensures View() == if ok then WithClone(old(View()), base, outcome.tree) else old(View())
    {
      ok := outcome.Cloned?;
      if ok {
        WithCloneWellFormed(View(), base, outcome.tree);
        dirs := dirs + ClonedDirs(base, outcome.tree);
        files := files + ClonedFiles(base, outcome.tree);
      }
    }
  }
}
