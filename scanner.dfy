/** `find_gradle_files`: the walk of the project tree, reduced to the paths of its build
    scripts. The walk itself (`os.walk`) is an input: one `DirListing` per directory it
    visits, in the order it visits them. */
module Scanner {
  import opened Text

  /** One step of a directory walk: a directory and the names of the files directly in it. */
  datatype DirListing = DirListing(root: string, files: seq<string>)

  /** The two build-script names, matched exactly (no case folding, no suffixes). */
  predicate IsBuildFileName(name: string) {
    name == "build.gradle" || name == "build.gradle.kts"
  }

  /** POSIX `os.path.join` of two components: an absolute second component replaces the
      first, otherwise a `/` is put between them unless the first is empty or already
      ends with one. */
  function Join(a: string, b: string): (r: string)
    ensures EndsWith(r, b)
    ensures (b == [] || b[0] != '/') && a != [] ==> StartsWith(r, a)
    ensures (b == [] || b[0] != '/') && a != [] && a[|a| - 1] != '/' ==> |r| == |a| + 1 + |b| && r[|a|] == '/'
  {
    if b != [] && b[0] == '/' then b
    else if a == [] || a[|a| - 1] == '/' then a + b
    else a + "/" + b
  }

  /** The paths one directory contributes, in the order its files are listed. */
  function InDir(root: string, names: seq<string>): seq<string>
  {
    if names == [] then []
    else
      var last := names[|names| - 1];
      InDir(root, names[..|names| - 1]) + (if IsBuildFileName(last) then [Join(root, last)] else [])
  }

  /** The paths the whole walk contributes, directory by directory. */
  function GradleFiles(walk: seq<DirListing>): seq<string>
  {
    if walk == [] then []
    else
      var last := walk[|walk| - 1];
      GradleFiles(walk[..|walk| - 1]) + InDir(last.root, last.files)
  }

  /** The nested loop of `find_gradle_files` over the walk. */
  method FindGradleFiles(walk: seq<DirListing>) returns (gradleFiles: seq<string>)
    ensures gradleFiles == GradleFiles(walk)
  {
    gradleFiles := [];
    var i := 0;
    while i < |walk|
      invariant 0 <= i <= |walk|
      invariant gradleFiles == GradleFiles(walk[..i])
    {
      var entry := walk[i];
      var j := 0;
      while j < |entry.files|
        invariant 0 <= j <= |entry.files|
        invariant gradleFiles == GradleFiles(walk[..i]) + InDir(entry.root, entry.files[..j])
      {
        assert entry.files[..j + 1][..j] == entry.files[..j];
        assert InDir(entry.root, entry.files[..j + 1]) == InDir(entry.root, entry.files[..j]) +
          (if IsBuildFileName(entry.files[j]) then [Join(entry.root, entry.files[j])] else []);
        if IsBuildFileName(entry.files[j]) {
          gradleFiles := gradleFiles + [Join(entry.root, entry.files[j])];
        }
        j := j + 1;
      }
      assert entry.files[..j] == entry.files;
      assert walk[..i + 1][..i] == walk[..i];
      assert GradleFiles(walk[..i + 1]) == GradleFiles(walk[..i]) + InDir(entry.root, entry.files);
      i := i + 1;
    }
    assert walk[..i] == walk;
  }

  /** One file on its own: kept exactly when its name is a build-script name. */
  lemma {:induction false} GradleFilesSingle(root: string, name: string)
    ensures GradleFiles([DirListing(root, [name])]) ==
      if IsBuildFileName(name) then [Join(root, name)] else []
  {
    var w := [DirListing(root, [name])];
    assert w[..0] == [];
    assert [name][..0] == [];
    assert GradleFiles(w) == GradleFiles([]) + InDir(root, [name]);
    assert InDir(root, [name]) == InDir(root, []) + (if IsBuildFileName(name) then [Join(root, name)] else []);
  }

  lemma {:induction false} InDirAppend(root: string, xs: seq<string>, ys: seq<string>)
    ensures InDir(root, xs + ys) == InDir(root, xs) + InDir(root, ys)
    decreases |ys|
  {
    if ys == [] {
      assert xs + ys == xs;
    } else {
      var n := |ys| - 1;
      assert (xs + ys)[..|xs + ys| - 1] == xs + ys[..n];
      assert (xs + ys)[|xs + ys| - 1] == ys[n];
      InDirAppend(root, xs, ys[..n]);
    }
  }

  /** Walking two listings one after the other collects their paths one after the other:
      traversal order is kept, and nothing is merged or dropped. */
  lemma {:induction false} GradleFilesAppend(w1: seq<DirListing>, w2: seq<DirListing>)
    ensures GradleFiles(w1 + w2) == GradleFiles(w1) + GradleFiles(w2)
    decreases |w2|
  {
    if w2 == [] {
      assert w1 + w2 == w1;
    } else {
      var n := |w2| - 1;
      assert (w1 + w2)[..|w1 + w2| - 1] == w1 + w2[..n];
      assert (w1 + w2)[|w1 + w2| - 1] == w2[n];
      GradleFilesAppend(w1, w2[..n]);
    }
  }

  /** The `k`-th file of the directory `root` is a build script whose path is `p`. */
  predicate Yields(root: string, names: seq<string>, k: int, p: string) {
    0 <= k < |names| && IsBuildFileName(names[k]) && p == Join(root, names[k])
  }

  lemma InDirMembers(root: string, names: seq<string>, p: string)
    ensures p in InDir(root, names) <==> exists k :: Yields(root, names, k, p)
  {
    if p in InDir(root, names) {
      InDirFound(root, names, p);
    } else if exists k :: Yields(root, names, k, p) {
      var k :| Yields(root, names, k, p);
      InDirYields(root, names, k, p);
    }
  }

  /** Every path of a directory comes from one of its build-script names. */
  lemma {:induction false} InDirFound(root: string, names: seq<string>, p: string)
    requires p in InDir(root, names)
    ensures exists k :: Yields(root, names, k, p)
    decreases |names|
  {
    var n := |names| - 1;
    var front := names[..n];
    if p in InDir(root, front) {
      InDirFound(root, front, p);
      var k :| Yields(root, front, k, p);
      assert Yields(root, names, k, p);
    } else {
      assert Yields(root, names, n, p);
    }
  }

  /** Every build-script name of a directory gives a path of it. */
  lemma {:induction false} InDirYields(root: string, names: seq<string>, k: int, p: string)
    requires Yields(root, names, k, p)
    ensures p in InDir(root, names)
    decreases |names|
  {
    var n := |names| - 1;
    if k < n {
      InDirYields(root, names[..n], k, p);
    }
  }

  /** A path is collected exactly when some directory of the walk lists a file with a
      build-script name and the path is that directory joined with that name. */
  lemma {:induction false} GradleFilesMembers(walk: seq<DirListing>, p: string)
    ensures p in GradleFiles(walk) <==>
      exists i, k :: 0 <= i < |walk| && Yields(walk[i].root, walk[i].files, k, p)
    decreases |walk|
  {
    if walk != [] {
      var n := |walk| - 1;
      var front := walk[..n];
      var last := walk[n];
      GradleFilesMembers(front, p);
      InDirMembers(last.root, last.files, p);
      assert GradleFiles(walk) == GradleFiles(front) + InDir(last.root, last.files);
      if p in GradleFiles(walk) {
        if p in GradleFiles(front) {
          var i, k :| 0 <= i < |front| && Yields(front[i].root, front[i].files, k, p);
          assert walk[i] == front[i];
        } else {
          var k :| Yields(last.root, last.files, k, p);
        }
      } else {
        forall i, k | 0 <= i < |walk| ensures !Yields(walk[i].root, walk[i].files, k, p) {
          if i < n { assert walk[i] == front[i]; }
        }
      }
    }
  }

  /** Every collected path ends with `build.gradle` or `build.gradle.kts`. */
  lemma GradleFilesNames(walk: seq<DirListing>, p: string)
    requires p in GradleFiles(walk)
    ensures EndsWith(p, "build.gradle") || EndsWith(p, "build.gradle.kts")
  {
    GradleFilesMembers(walk, p);
  }
}
