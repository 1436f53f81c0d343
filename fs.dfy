/**
 An abstract filesystem tree: relative paths are sequences of path components,
 files hold opaque bytes, and a directory tree is a finite map from the relative
 path of each regular file below its root to that file's contents.
 */
module Fs {

  datatype Option<T> = None | Some(value: T)

  type Bytes = seq<bv8>

  /* A relative path below some root; [] is the root itself. */
  type Path = seq<string>

  /* The relative path of a regular file: never the root. */
  type FilePath = p: Path | |p| > 0 witness ["missing_stubs"]

  /* The regular files of a directory tree, by relative path. */
  type Tree = map<FilePath, Bytes>

  /* p names a directory strictly above q. */
  predicate StrictPrefix(p: Path, q: Path)
  {
    |p| < |q| && q[..|p|] == p
  }

  /* Every directory strictly above p, the root included when p is not the root. */
  function Ancestors(p: Path): (r: set<Path>)
    ensures forall d :: d in r <==> StrictPrefix(d, p)
  {
    var r := set k | 0 <= k < |p| :: p[..k];
    assert forall d :: StrictPrefix(d, p) ==> d == p[..|d|];
    r
  }

  /* The directory that holds the file at p. */
  function Parent(p: FilePath): (r: Path)
    ensures StrictPrefix(r, p) && |r| == |p| - 1
  {
    p[..|p| - 1]
  }

  /* The directories above a file are those above its parent, and the parent. */
  lemma AncestorsOfFile(p: FilePath)
    ensures Ancestors(p) == Ancestors(Parent(p)) + {Parent(p)}
  {
    forall d | d in Ancestors(p) && d != Parent(p)
      ensures d in Ancestors(Parent(p))
    {
      assert |d| < |p| - 1;
      assert Parent(p)[..|d|] == p[..|d|];
    }
    forall d | d in Ancestors(Parent(p))
      ensures d in Ancestors(p)
    {
      assert p[..|d|] == Parent(p)[..|d|];
    }
  }

  /* A directory above a directory above p is itself above p. */
  lemma StrictPrefixTransitive(a: Path, b: Path, c: Path)
    requires StrictPrefix(a, b) && StrictPrefix(b, c)
    ensures StrictPrefix(a, c)
  {
    assert c[..|a|] == c[..|b|][..|a|];
  }

  /* No file path of s lies below another: a file is never used as a directory. */
  predicate PrefixFree(s: set<FilePath>)
  {
    forall p, q :: p in s && q in s ==> !StrictPrefix(p, q)
  }

  /* Every directory above some file of s. */
  function AncestorsOfAll(s: set<FilePath>): set<Path>
  {
    set p, k | p in s && 0 <= k < |p| :: p[..k]
  }

  /* The directories above the files of s are exactly those strictly above one of them. */
  lemma AncestorsOfAllMembers(s: set<FilePath>)
    ensures forall d :: d in AncestorsOfAll(s) <==> exists p :: p in s && StrictPrefix(d, p)
  {
    forall d, p | p in s && StrictPrefix(d, p)
      ensures d in AncestorsOfAll(s)
    {
      assert d == p[..|d|];
    }
  }
}
