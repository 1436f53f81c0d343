# rules_mypy cache and stub-tree core, modelled in Dafny

This project models the filesystem logic of rules_mypy's two helper
programs. rules_mypy is a Bazel rule set that runs the mypy type checker.

- **Upstream cache merge** (`_merge_upstream_caches`). A target mypy cache
  directory is backfilled, copy-if-absent, from an ordered list of upstream
  cache trees. The per-run `missing_stubs` index is then deleted.
- **Managed cache scope** (`managed_cache_dir`). A truthy cache directory is
  merged and handed out as is. Otherwise a fresh temporary directory is
  handed out and removed when the scope ends.
- **Type-checker invocation** (`run_mypy`, `run`). The argument vector given
  to the checker. A run with no sources reports success without touching any
  cache.
- **Stub-package normaliser** (`py_type_library`). Every top-level package of
  `site-packages` is copied under its name with one trailing `-stubs`
  removed. A destination that already exists is an error.

A directory tree is a map from relative path (a sequence of components) to
file bytes, plus the set of its directories.

Files:
- `fs.dfy` (module `Fs`): paths, trees, ancestors.
- `cache_merge.dfy`: the merge. The pure functions `Backfill`, `Merged` and
  `MergedDirs` specify it, with laws proved about them. The class `CacheDir`
  is the target directory; its `Merge` method is proved to reach exactly the
  state those functions describe.
- `cache_scope.dfy`: the scope, as a class that tracks live temporary
  directories.
- `mypy_run.dfy`: the argument vector and `run`.
- `stub_tree.dfy`: `_clean` and the copy loop of `main`.

The type checker is a parameter of `Run`: a function from argument vector
to report, diagnostics and status. The operating system's temporary
directory names are modelled by a counter.

## Model

| member | source | states |
|---|---|---|
| Fs.Ancestors | mypy/private/mypy.py:28-29 | The directories that `mkdir(parents=True)` creates above a path are exactly its strict prefixes. |
| Fs.Parent | mypy/private/mypy.py:28 | A file's parent is the strict prefix one component shorter. |
| Fs.AncestorsOfFile | mypy/private/mypy.py:28-29 | The directories above a file are those above its parent, plus the parent. |
| Fs.AncestorsOfAllMembers | mypy/private/mypy.py:22-29 | A directory is created for a set of files exactly when it lies strictly above one of them. |
| CacheMerge.CopyAbsent | mypy/private/mypy.py:22-31 | Copying one upstream gives the union of the paths. Target files keep their bytes. New files carry the upstream's bytes. |
| CacheMerge.UpstreamFilesMembers | mypy/private/mypy.py:18-25 | A path counts as an upstream file exactly when some upstream in the list holds it. |
| CacheMerge.Backfill | mypy/private/mypy.py:18-31 | After all upstreams are copied, the paths are the target's plus every upstream's, and target files are unchanged. |
| CacheMerge.Merged | mypy/private/mypy.py:14-36 | After the merge, `missing_stubs` is gone, the paths are (target ∪ upstreams) minus `missing_stubs`, and every other target file keeps its bytes. |
| CacheMerge.MergedDirs | mypy/private/mypy.py:15-29 | After the merge, the root and all old directories exist, plus every directory above an upstream file. |
| CacheMerge.MergedDirsOnly | mypy/private/mypy.py:15-29 | Nothing else is created. Every directory after the merge existed before, is the root, or lies above a file of some upstream. |
| CacheMerge.BackfillFirst | mypy/private/mypy.py:18-31 | A file missing from the target gets the bytes of the first upstream, in list order, that has it. |
| CacheMerge.MergedKeepsTarget | mypy/private/mypy.py:30-31 | Precedence: a target file other than `missing_stubs` keeps its exact bytes, even if an upstream has different ones. |
| CacheMerge.MergedTakesFirstUpstream | mypy/private/mypy.py:18-31 | Backfill: a missing file ends with the first holding upstream's bytes. |
| CacheMerge.MergedIdempotent | mypy/private/mypy.py:30-36 | Merging again with the same upstreams leaves the files unchanged. |
| CacheMerge.MergedNoUpstreams | mypy/private/mypy.py:33-36 | With an empty upstream list, the merge only deletes `missing_stubs`. |
| CacheMerge.MergedScenario | mypy/private/mypy.py:14-36 | Example. The target has a/x.json; upstream 1 has a/x.json and b/y.json; upstream 2 has b/y.json and c/z.json. The result is the target's a/x.json, upstream 1's b/y.json and upstream 2's c/z.json. |
| CacheMerge.MergedWellFormed | mypy/private/mypy.py:28-29 | The merged state is a valid directory tree: every file's parent directories exist, and no file stands where a directory is. |
| CacheMerge.CacheDir.CopyIfAbsent | mypy/private/mypy.py:26-31 | Creates the missing parent directories. The file is added only when neither a file nor a directory exists at its path. |
| CacheMerge.CacheDir.Purge | mypy/private/mypy.py:33-36 | Removes `missing_stubs` if present; nothing else changes. |
| CacheMerge.CacheDir.CopyTree | mypy/private/mypy.py:22-31 | Overlaying one upstream, file by file in any order, leaves `CopyAbsent` of the old files and adds the directories above the upstream's files. |
| CacheMerge.CacheDir.CopyTrees | mypy/private/mypy.py:18-31 | Overlaying the upstreams in list order leaves `Backfill` of the old files. |
| CacheMerge.CacheDir.Merge | mypy/private/mypy.py:14-36 | The target's new files are `Merged` and its new directories are `MergedDirs` of its old state. It stays a valid tree. |
| CacheScope.Scope.Acquire | mypy/private/mypy.py:50-55 | A truthy path: the target is merged, that same path is returned, and no temporary directory is made. Otherwise: a new temporary directory, never issued before, becomes live and is returned. |
| CacheScope.Scope.Release | mypy/private/mypy.py:56 | A temporary directory stops being live. A persistent one is left alone. |
| CacheScope.Truthy | mypy/private/mypy.py:50 | Python truthiness of an optional path: it is truthy exactly when it is present and non-empty, so `None` and `""` are falsy. |
| MypyRun.ConfigArgs | mypy/private/mypy.py:62 | `--config-file` followed by the ini path when that path is truthy, and nothing otherwise. |
| MypyRun.FixedFlags | mypy/private/mypy.py:65-76 | The fixed part is five flags; the third is `--cache-dir=` followed by the cache directory. |
| MypyRun.Argv | mypy/private/mypy.py:62-78 | The vector starts with `--config-file <ini>` exactly when the ini path is truthy. Next come the five fixed flags with the cache directory. It ends with the sources unchanged. |
| MypyRun.ParseArgvRoundTrip | mypy/private/mypy.py:62-78 | Config (when truthy), cache directory and sources can be read back from the vector unchanged. |
| MypyRun.ArgvInjective | mypy/private/mypy.py:62-78 | Different requests (truthy config, cache directory, sources) give different vectors. |
| MypyRun.Run | mypy/private/mypy.py:93-97 | No sources: result ("", "", 0), and neither the scope nor any cache changes. With sources: the checker's result on the vector for the scope's directory, and no temporary directory stays live afterwards. |
| StubTree.Clean | mypy/private/py_type_library.py:16-17 | `removesuffix("-stubs")`: a name ending in `-stubs` gives back the name with that suffix removed. Any other name is returned unchanged. |
| StubTree.CleanIsPrefix | mypy/private/py_type_library.py:16-17 | `_clean` returns a prefix of its input, either unchanged or 6 characters shorter. |
| StubTree.CleanStripsSuffix | mypy/private/py_type_library.py:17 | `_clean(x + "-stubs") == x` for every x. |
| StubTree.CleanChanges | mypy/private/py_type_library.py:17 | A name changes exactly when it ends in `-stubs`, and then exactly that suffix is removed. |
| StubTree.CleanStripsOnce | mypy/private/py_type_library.py:17 | Only one suffix is removed: `a-stubs-stubs` becomes `a-stubs` and `-stubs` becomes the empty name. |
| StubTree.RenamedCopyUnique | mypy/private/py_type_library.py:29-30 | At most one output is the renamed copy, so a copy without collision does not depend on listing order. |
| StubTree.RenamedCopyContents | mypy/private/py_type_library.py:29-30 | Without a collision, each new output package is the subtree of the single input package that cleans to its name. |
| StubTree.NormaliseRenamesSucceeds | mypy/private/py_type_library.py:29-30 | Input {foo, bar-stubs} into an empty output does not collide, so the copy succeeds. |
| StubTree.NormaliseRenames | mypy/private/py_type_library.py:29-30 | Input {foo, bar-stubs} gives output {foo, bar}, each with its own subtree. |
| StubTree.NormaliseCollides | mypy/private/py_type_library.py:30 | Input {foo, foo-stubs} collides. |
| StubTree.ReservedCollides | mypy/private/py_type_library.py:27-30 | A package named `""`, `.` or `..` followed by `-stubs` collides. Its destination is `site-packages` itself or its parent, which always exist. |
| StubTree.NormaliseReservedCollides | mypy/private/py_type_library.py:27-30 | Packages named `-stubs`, `.-stubs` and `..-stubs` each collide, even in an empty output. |
| StubTree.ProgressStep | mypy/private/py_type_library.py:29-30 | Copying one more package to a free destination keeps the loop invariant. |
| StubTree.ProgressNewEntries | mypy/private/py_type_library.py:29-30 | During the loop, every new output entry is an input package's subtree, under that package's cleaned name. |
| StubTree.ProgressCollision | mypy/private/py_type_library.py:30 | Meeting a taken destination mid-loop means the input collides. |
| StubTree.ProgressDoneNoCollision | mypy/private/py_type_library.py:29-30 | If the whole listing was copied, the input does not collide. |
| StubTree.ProgressDoneKeys | mypy/private/py_type_library.py:29-30 | If the whole listing was copied, the output's names are the old ones plus the cleaned input names. |
| StubTree.ProgressDoneCopy | mypy/private/py_type_library.py:29-30 | If the whole listing was copied, the output is the input's renamed copy. |
| StubTree.OutputDir.CopyPackages | mypy/private/py_type_library.py:29-30 | Runs with `site-packages` present. It fails exactly when the input collides: two names clean alike, or a cleaned name is taken or reserved. On success the output is the renamed copy. On failure the failing name is a cleaned input name, old entries are kept, and new entries are input subtrees. |
| StubTree.OutputDir.Normalise | mypy/private/py_type_library.py:23-30 | `site-packages` exists afterwards. A missing input fails and nothing is copied. Otherwise it fails exactly on a collision, and succeeds with the renamed copy. |

## Left out

- `mypy.api.run` (mypy/private/mypy.py:63) is not modelled: it is the external checker, so `Run` takes it as a function parameter.
- Writing to stderr on a nonzero status, writing the output file, and `mypy.util.hard_exit` (mypy/private/mypy.py:79-83, 99-106) are left out; they are I/O.
- Argument parsing by argparse and click is left out. The `or []` default for upstream caches (mypy/private/mypy.py:120) appears as an empty upstream list (see `MergedNoUpstreams`).
- Order of `os.walk`: `CopyTree` copies an upstream's files in any order. The paths within one upstream are distinct, so the order does not change the result.
- Permissions, symlinks, the real names of temporary directories, and I/O errors other than the name collision are left out.
- Concurrent build actions racing on a shared cache directory are left out.
- Upstream directories that alias the target are left out: upstreams are values that are only read.
- A missing upstream directory is modelled as an empty tree. The code calls `os.walk` with its default error handling, which yields nothing for a missing directory, so a missing upstream is not an error.
- `CacheMerge.CacheDir.Merge`: requires `Compatible` in two parts.
  - No path in the target, in an upstream, or `missing_stubs` lies strictly below another such path. Equal paths are allowed; they are the precedence case.
  - None of those paths is a directory in the target.
- `CacheMerge.CacheDir.Merge`: where the first part fails, the code mostly raises `OSError` from `mkdir` or `copy`, and the model has a precondition instead of that error path. Not always: an upstream `a/b` followed by an upstream file `a` skips `a`, because `a` is then a directory, and the reverse order raises `NotADirectoryError` on `a/b`. Such input is excluded too, since its outcome depends on upstream order.
- `CacheMerge.CacheDir.Merge`: where the second part fails for `missing_stubs` (a directory of that name in the target), the code raises. `exists()` is true and `unlink()` (mypy/private/mypy.py:36) fails on a directory. `Purge`'s precondition stands in for that error path.
- `CacheMerge.CacheDir.Merge`: where the second part fails for a target or upstream file path, the code accepts the input. An upstream file whose path is already a directory in the target is skipped without error, whatever the upstream order, because `exists()` is true for a directory (mypy/private/mypy.py:30). The model excludes this case because the merged files would then no longer be the target's plus the upstreams' files: such paths would have to be removed from that set.
- `MypyRun.Run`: the checker's own writes to the cache directory are not modelled: mypy's incremental cache, a new `missing_stubs` included. The `engine` parameter is a function of the argument vector only. The final target state that `Run` states, `Merged` and `MergedDirs` of the old one, is the state handed to the checker.
- `CacheScope.Scope.Release`: removes the temporary directory only when the body ends normally. `tmpdir.cleanup()` follows the `yield` with no `try`/`finally` (mypy/private/mypy.py:54-56): the code calls `cleanup()` only on normal exit, so removal at scope exit is guaranteed only then. On the exception path, `TemporaryDirectory`'s own finalizer removes the directory later, when the object is collected or the interpreter exits. The model makes no claim about the exception path.
- `CacheScope.Scope.Acquire`: a present but empty `cache_dir` counts as falsy, as in Python, and gets a temporary directory.
- `StubTree.OutputDir.Normalise`: input `site-packages` entries are modelled as directories (a map from package name to subtree). A plain file there would make `copytree` raise; that case is not modelled.
- `StubTree.OutputDir.Normalise`: an existing output `site-packages` that is a file, not a directory, is left out.
- `StubTree.OutputDir.CopyPackages`: the listing order is a parameter. The operating system's `iterdir` order is not modelled, beyond the fact that it lists each entry once.
- `StubTree.OutputDir.CopyPackages`: names are compared exactly: case-sensitive, with no Unicode normalisation, as on a typical Linux file system. On a case-insensitive or normalising file system, such as the macOS and Windows defaults, `foo` and `Foo-stubs` land in the same directory, and the second `copytree` raises. The model says they do not collide.
- `CacheMerge.CacheDir.Merge`: makes the same assumption. Paths are compared component by component, exactly; `target_path.exists()` (mypy/private/mypy.py:30) on a case-folding file system would treat `A/x` and `a/x` as one file.
- examples/demo/thm/b/__init__.py is not part of this model: it only wraps a third-party cache class.
