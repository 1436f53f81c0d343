/**
 The upstream cache merge of mypy/private/mypy.py: a target type-checker cache
 directory is backfilled, copy-if-absent, from an ordered list of upstream
 cache trees, and the run-specific `missing_stubs` index is then removed.

 The specification is a pair of functions on trees (Backfill, Merged) with
 the precedence, backfill, purge and idempotence laws proved about them; the
 class CacheDir holds the target directory's state and its Merge method is
 proved to leave exactly the state those functions describe.
 */
module CacheMerge {
  import opened Fs

  /* The mutable top-level index that the merge deletes. */
  const MissingStubs: FilePath := ["missing_stubs"]

  /* One upstream copied into files, keeping every file files already has. */
  function CopyAbsent(files: Tree, u: Tree): (r: Tree)
    ensures r.Keys == files.Keys + u.Keys
    ensures forall p :: p in files ==> r[p] == files[p]
    ensures forall p :: p in u && p !in files ==> r[p] == u[p]
  {
    map p | p in files.Keys + u.Keys :: if p in files then files[p] else u[p]
  }

  /* Every file path found in some upstream. */
  function UpstreamFiles(ups: seq<Tree>): set<FilePath>
  {
    if ups == [] then {} else UpstreamFiles(ups[..|ups| - 1]) + ups[|ups| - 1].Keys
  }

  /* A path is an upstream file exactly when some upstream holds it. */
  lemma {:induction false} UpstreamFilesMembers(ups: seq<Tree>)
    ensures forall p :: p in UpstreamFiles(ups) <==> exists j :: 0 <= j < |ups| && p in ups[j]
  {
    if ups != [] {
      var front := ups[..|ups| - 1];
      UpstreamFilesMembers(front);
      assert forall j :: 0 <= j < |front| ==> front[j] == ups[j];
    }
  }

  /* Each upstream's files are upstream files. */
  lemma UpstreamFilesHas(ups: seq<Tree>, i: nat)
    requires i < |ups|
    ensures ups[i].Keys <= UpstreamFiles(ups)
  {
    UpstreamFilesMembers(ups);
  }

  /* The target's files after every upstream, in list order, has been copied in. */
  function Backfill(files: Tree, ups: seq<Tree>): (r: Tree)
    ensures r.Keys == files.Keys + UpstreamFiles(ups)
    ensures forall p :: p in files ==> r[p] == files[p]
  {
    if ups == [] then files
    else CopyAbsent(Backfill(files, ups[..|ups| - 1]), ups[|ups| - 1])
  }

  /* The target's files once the merge, the purge included, is done. */
  function Merged(files: Tree, ups: seq<Tree>): (r: Tree)
    ensures MissingStubs !in r
    ensures r.Keys == (files.Keys + UpstreamFiles(ups)) - {MissingStubs}
    ensures forall p :: p in files && p != MissingStubs ==> r[p] == files[p]
  {
    Backfill(files, ups) - {MissingStubs}
  }

  /* The target's directories once the merge is done: the root, and the
     directories above every upstream file. */
  function MergedDirs(dirs: set<Path>, ups: seq<Tree>): (r: set<Path>)
    ensures [] in r && dirs <= r
    ensures forall p :: p in UpstreamFiles(ups) ==> Ancestors(p) <= r
  {
    dirs + {[]} + AncestorsOfAll(UpstreamFiles(ups))
  }

  /* Nothing else is created: every merged directory was there before, is
     the root, or lies above a file of some upstream. */
  lemma MergedDirsOnly(dirs: set<Path>, ups: seq<Tree>)
    ensures forall d :: d in MergedDirs(dirs, ups) ==>
      d in dirs || d == [] || exists j, p :: 0 <= j < |ups| && p in ups[j] && StrictPrefix(d, p)
  {
    AncestorsOfAllMembers(UpstreamFiles(ups));
    UpstreamFilesMembers(ups);
  }

  /* A file absent from the target takes the bytes of the first upstream that holds it. */
  lemma {:induction false} BackfillFirst(files: Tree, ups: seq<Tree>, p: FilePath, i: nat)
    requires p !in files
    requires i < |ups| && p in ups[i]
    requires forall j :: 0 <= j < i ==> p !in ups[j]
    ensures p in Backfill(files, ups) && Backfill(files, ups)[p] == ups[i][p]
  {
    var front := ups[..|ups| - 1];
    if i == |ups| - 1 {
      UpstreamFilesMembers(front);
      assert forall j :: 0 <= j < |front| ==> front[j] == ups[j];
    } else {
      assert forall j :: 0 <= j < i ==> front[j] == ups[j];
      BackfillFirst(files, front, p, i);
    }
  }

  /* Precedence law: a file the target already has keeps its bytes. */
  lemma MergedKeepsTarget(files: Tree, ups: seq<Tree>, p: FilePath)
    requires p in files && p != MissingStubs
    ensures p in Merged(files, ups) && Merged(files, ups)[p] == files[p]
  {
  }

  /* Backfill law: a file missing from the target comes from the first upstream holding it. */
  lemma MergedTakesFirstUpstream(files: Tree, ups: seq<Tree>, p: FilePath, i: nat)
    requires p !in files && p != MissingStubs
    requires i < |ups| && p in ups[i]
    requires forall j :: 0 <= j < i ==> p !in ups[j]
    ensures p in Merged(files, ups) && Merged(files, ups)[p] == ups[i][p]
  {
    BackfillFirst(files, ups, p, i);
  }

  /* Merging again with the same upstreams changes nothing. */
  lemma MergedIdempotent(files: Tree, ups: seq<Tree>)
    ensures Merged(Merged(files, ups), ups) == Merged(files, ups)
  {
    var once := Merged(files, ups);
    var twice := Merged(once, ups);
    assert twice.Keys == once.Keys;
    forall p | p in once
      ensures twice[p] == once[p]
    {
      MergedKeepsTarget(once, ups, p);
    }
  }

  /* With no upstreams the merge only purges. */
  lemma MergedNoUpstreams(files: Tree)
    ensures Merged(files, []) == files - {MissingStubs}
  {
  }

  /* Proof helper for MergedScenario: copying an upstream whose files are
     one the target has and one it lacks. */
  lemma CopyAbsentPair(p: FilePath, q: FilePath, tp: Bytes, up: Bytes, uq: Bytes)
    requires p != q
    ensures CopyAbsent(map[p := tp], map[p := up, q := uq]) == map[p := tp, q := uq]
  {
  }

  /* Proof helper for MergedScenario: the same, into a target of two files. */
  lemma CopyAbsentPairInto(p: FilePath, q: FilePath, r: FilePath, tp: Bytes, tq: Bytes, uq: Bytes, ur: Bytes)
    requires p != q && p != r && q != r
    ensures CopyAbsent(map[p := tp, q := tq], map[q := uq, r := ur]) == map[p := tp, q := tq, r := ur]
  {
  }

  /* Proof helper for MergedScenario: when the backfilled tree has no
     missing_stubs, the purge leaves it as is. */
  lemma MergedWithoutIndex(files: Tree, ups: seq<Tree>)
    requires MissingStubs !in Backfill(files, ups)
    ensures Merged(files, ups) == Backfill(files, ups)
  {
  }

  /* The worked example: the target's a/x.json stays, b/y.json comes from
     the first upstream and c/z.json from the second. */
  lemma MergedScenario(x0: Bytes, x1: Bytes, y1: Bytes, y2: Bytes, z2: Bytes)
    ensures var x: FilePath, y: FilePath, z: FilePath := ["a", "x.json"], ["b", "y.json"], ["c", "z.json"];
      Merged(map[x := x0], [map[x := x1, y := y1], map[y := y2, z := z2]])
        == map[x := x0, y := y1, z := z2]
  {
    var x: FilePath, y: FilePath, z: FilePath := ["a", "x.json"], ["b", "y.json"], ["c", "z.json"];
    assert x[0] != y[0] && x[0] != z[0] && y[0] != z[0];
    var u1, u2 := map[x := x1, y := y1], map[y := y2, z := z2];
    var ups := [u1, u2];
    var files := map[x := x0];
    BackfillStep(files, ups, 0);
    BackfillStep(files, ups, 1);
    assert ups[..0] == [] && ups[..2] == ups;
    CopyAbsentPair(x, y, x0, x1, y1);
    assert Backfill(files, ups[..1]) == map[x := x0, y := y1];
    CopyAbsentPairInto(x, y, z, x0, y1, y2, z2);
    assert Backfill(files, ups) == map[x := x0, y := y1, z := z2];
    assert x != MissingStubs && y != MissingStubs && z != MissingStubs;
    MergedWithoutIndex(files, ups);
  }

  /* Copying one more file of u adds it unless it is already there. */
  lemma CopyAbsentStep(files: Tree, u: Tree, pending: set<FilePath>, p: FilePath)
    requires p in pending && pending <= u.Keys
    ensures (u - (pending - {p})).Keys == (u - pending).Keys + {p}
    ensures CopyAbsent(files, u - (pending - {p})) ==
            var g := CopyAbsent(files, u - pending); if p in g then g else g[p := u[p]]
  {
    var g := CopyAbsent(files, u - pending);
    var h := if p in g then g else g[p := u[p]];
    var r := CopyAbsent(files, u - (pending - {p}));
    assert (u - (pending - {p})).Keys == (u - pending).Keys + {p};
    assert r.Keys == h.Keys;
    forall q | q in r
      ensures r[q] == h[q]
    {
    }
  }

  /* The directories above one more file. */
  lemma AncestorsOfAllStep(s: set<FilePath>, p: FilePath)
    ensures AncestorsOfAll(s + {p}) == AncestorsOfAll(s) + Ancestors(p)
  {
  }

  /* One more upstream at the end of the list. */
  lemma BackfillStep(files: Tree, ups: seq<Tree>, i: nat)
    requires i < |ups|
    ensures Backfill(files, ups[..i + 1]) == CopyAbsent(Backfill(files, ups[..i]), ups[i])
    ensures UpstreamFiles(ups[..i + 1]) == UpstreamFiles(ups[..i]) + ups[i].Keys
  {
    assert ups[..i + 1][..i] == ups[..i];
  }

  /* The directories above the upstream files, one more upstream at a time. */
  lemma UpstreamDirsStep(ups: seq<Tree>, i: nat)
    requires i < |ups|
    ensures AncestorsOfAll(UpstreamFiles(ups[..i + 1]))
         == AncestorsOfAll(UpstreamFiles(ups[..i])) + AncestorsOfAll(ups[i].Keys)
  {
    BackfillStep(map[], ups, i);
    AncestorsOfAllUnion(UpstreamFiles(ups[..i]), ups[i].Keys);
  }

  /* Proof helper for the loops of CopyTree and CopyTrees: regrouping a union of directory sets. */
  lemma UnionAssoc(a: set<Path>, b: set<Path>, c: set<Path>)
    ensures (a + b) + c == a + (b + c)
  {
  }

  /* The directories above the files of a union. */
  lemma AncestorsOfAllUnion(s: set<FilePath>, t: set<FilePath>)
    ensures AncestorsOfAll(s + t) == AncestorsOfAll(s) + AncestorsOfAll(t)
  {
  }

  /* A target directory the filesystem can hold: every file's directories
     exist, no file is also a directory, and the directories are closed
     under going up. */
  predicate WellFormed(files: Tree, dirs: set<Path>)
  {
    && (forall p :: p in files ==> Ancestors(p) <= dirs)
    && (forall p :: p in files ==> p !in dirs)
    && (forall d :: d in dirs ==> Ancestors(d) <= dirs)
  }

  /* Upstreams that can be overlaid on the target without a file standing
     where a directory is needed, or the other way about (an OSError in
     the source). */
  predicate Compatible(files: Tree, dirs: set<Path>, ups: seq<Tree>)
  {
    var s := files.Keys + UpstreamFiles(ups) + {MissingStubs};
    PrefixFree(s) && forall p :: p in s ==> p !in dirs
  }

  /* The merged state is again a directory tree the filesystem can hold:
     in particular every file's parent directory exists. */
  lemma MergedWellFormed(files: Tree, dirs: set<Path>, ups: seq<Tree>)
    requires WellFormed(files, dirs) && Compatible(files, dirs, ups)
    ensures WellFormed(Merged(files, ups), MergedDirs(dirs, ups))
  {
    var m, md := Merged(files, ups), MergedDirs(dirs, ups);
    var s := files.Keys + UpstreamFiles(ups) + {MissingStubs};
    AncestorsOfAllMembers(UpstreamFiles(ups));
    assert forall p :: p in m ==> p in s;
    forall d | d in md
      ensures Ancestors(d) <= md
    {
      if d in AncestorsOfAll(UpstreamFiles(ups)) {
        var q :| q in UpstreamFiles(ups) && StrictPrefix(d, q);
        forall e | e in Ancestors(d)
          ensures e in md
        {
          StrictPrefixTransitive(e, d, q);
        }
      }
    }
  }

  /* The target cache directory, updated in place by the merge. */
  class CacheDir {
    var files: Tree
    var dirs: set<Path>

    predicate Valid()
      reads this
    {
      WellFormed(files, dirs)
    }

    predicate Accepts(ups: seq<Tree>)
      reads this
    {
      Compatible(files, dirs, ups)
    }

    /* A cache directory in a given state; with no files and no
       directories it does not exist yet. */
    constructor (files: Tree, dirs: set<Path>)
      requires WellFormed(files, dirs)
      ensures Valid()
      ensures this.files == files && this.dirs == dirs
    {
      this.files := files;
      this.dirs := dirs;
    }

    /* Copies one upstream file to p unless something, file or directory,
       already exists there, first creating the parent directory when it is
       missing. No file may stand where a directory is needed. */
    method CopyIfAbsent(p: FilePath, bytes: Bytes)
      requires Valid()
      requires forall f :: f in files ==> !StrictPrefix(f, p)
      modifies this
      ensures Valid()
      ensures dirs == old(dirs) + Ancestors(p)
      ensures files == if p in old(files) || p in old(dirs) then old(files) else old(files)[p := bytes]
    {
      AncestorsOfFile(p);
      if Parent(p) !in dirs {
        forall d | d in Ancestors(p)
          ensures Ancestors(d) <= Ancestors(p)
        {
          forall e | e in Ancestors(d)
            ensures e in Ancestors(p)
          {
            StrictPrefixTransitive(e, d, p);
          }
        }
        dirs := dirs + Ancestors(p);
      }
      if p !in files && p !in dirs {
        files := files[p := bytes];
      }
    }

    /* Deletes the missing_stubs index if it exists. */
    method Purge()
      requires Valid()
      requires MissingStubs !in dirs
      modifies this
      ensures Valid()
      ensures files == old(files) - {MissingStubs}
      ensures dirs == old(dirs)
    {
      if MissingStubs in files {
        files := files - {MissingStubs};
      }
    }

    /* Overlays one upstream tree, file by file in any order. */
    method CopyTree(u: Tree, ghost all: set<FilePath>)
      requires Valid()
      requires PrefixFree(all) && u.Keys <= all && files.Keys <= all
      requires forall p :: p in all ==> p !in dirs
      modifies this
      ensures Valid()
      ensures files == CopyAbsent(old(files), u)
      ensures dirs == old(dirs) + AncestorsOfAll(u.Keys)
      ensures files.Keys <= all
      ensures forall p :: p in all ==> p !in dirs
    {
      var pending := u.Keys;
      while pending != {}
        invariant pending <= u.Keys
        invariant Valid()
        invariant files == CopyAbsent(old(files), u - pending)
        invariant dirs == old(dirs) + AncestorsOfAll((u - pending).Keys)
        invariant files.Keys <= all
        invariant forall p :: p in all ==> p !in dirs
        decreases pending
      {
        var p :| p in pending;
        CopyIfAbsent(p, u[p]);
        CopyAbsentStep(old(files), u, pending, p);
        AncestorsOfAllStep((u - pending).Keys, p);
        UnionAssoc(old(dirs), AncestorsOfAll((u - pending).Keys), Ancestors(p));
        pending := pending - {p};
      }
      assert u - {} == u;
    }

    /* Overlays every upstream tree, in list order. */
    method CopyTrees(ups: seq<Tree>, ghost all: set<FilePath>)
      requires Valid()
      requires PrefixFree(all) && files.Keys + UpstreamFiles(ups) <= all
      requires forall p :: p in all ==> p !in dirs
      modifies this
      ensures Valid()
      ensures files == Backfill(old(files), ups)
      ensures dirs == old(dirs) + AncestorsOfAll(UpstreamFiles(ups))
      ensures files.Keys <= all
      ensures forall p :: p in all ==> p !in dirs
    {
      var i := 0;
      assert ups[..0] == [];
      while i < |ups|
        invariant 0 <= i <= |ups|
        invariant Valid()
        invariant files == Backfill(old(files), ups[..i])
        invariant dirs == old(dirs) + AncestorsOfAll(UpstreamFiles(ups[..i]))
        invariant files.Keys <= all
        invariant forall p :: p in all ==> p !in dirs
      {
        UpstreamFilesHas(ups, i);
        CopyTree(ups[i], all);
        BackfillStep(old(files), ups, i);
        UpstreamDirsStep(ups, i);
        UnionAssoc(old(dirs), AncestorsOfAll(UpstreamFiles(ups[..i])), AncestorsOfAll(ups[i].Keys));
        i := i + 1;
      }
      assert ups[..|ups|] == ups;
    }

    /* Creates the target root if needed, backfills it from each upstream in
       order, then purges missing_stubs. */
    method Merge(ups: seq<Tree>)
      requires Valid() && Accepts(ups)
      modifies this
      ensures Valid() && Accepts(ups)
      ensures files == Merged(old(files), ups)
      ensures dirs == MergedDirs(old(dirs), ups)
    {
      ghost var all := files.Keys + UpstreamFiles(ups) + {MissingStubs};
      dirs := dirs + {[]};
      CopyTrees(ups, all);
      Purge();
      assert files.Keys + UpstreamFiles(ups) + {MissingStubs} <= all;
    }
  }
}
