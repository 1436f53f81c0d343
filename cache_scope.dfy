/**
 The managed cache directory of mypy/private/mypy.py: a truthy requested
 path is merged with the upstream caches and handed out with no release
 step; otherwise a fresh temporary directory is handed out and removed when
 the scope is released.

 Temporary directories are identified by number; the operating system's
 choice of names is not modelled, only that a new one is never one handed
 out before.
 */
module CacheScope {
  import opened Fs
  import opened CacheMerge

  /* Python truthiness of an Optional[str]: neither None nor "". */
  predicate Truthy(s: Option<string>)
    ensures s == None || s == Some("") ==> !Truthy(s)
    ensures Truthy(s) <==> s.Some? && |s.value| > 0
  {
    s.Some? && s.value != ""
  }

  /* What the scope hands to its body. */
  datatype Lease = Persistent(dir: string) | Temporary(id: nat)
  {
    /* The directory path the body sees. */
    function Path(): string
    {
      match this
      case Persistent(dir) => dir
      case Temporary(id) => TempPath(id)
    }
  }

  function DigitChar(d: nat): char
    requires d < 10
  {
    "0123456789"[d]
  }

  function Decimal(n: nat): string
  {
    if n < 10 then [DigitChar(n)] else Decimal(n / 10) + [DigitChar(n % 10)]
  }

  /* A stand-in for the name the operating system gives a temporary directory. */
  function TempPath(id: nat): string
  {
    "/tmp/tmp" + Decimal(id)
  }

  /* The temporary directories of one process. */
  class Scope {
    /* Temporary directories that currently exist. */
    var live: set<nat>
    /* The number the next temporary directory gets. */
    var next: nat
    /* Every temporary directory handed out so far. */
    ghost var issued: set<nat>

    ghost predicate Valid()
      reads this
    {
      live <= issued && forall t :: t in issued ==> t < next
    }

    constructor ()
      ensures Valid()
      ensures live == {} && issued == {}
    {
      live := {};
      next := 0;
      issued := {};
    }

    /* Enters the managed scope. With a truthy cacheDir the directory target,
       which models the directory at that path, is merged and its path
       handed out; otherwise a new temporary directory is made. */
    method Acquire(cacheDir: Option<string>, target: CacheDir?, ups: seq<Tree>) returns (lease: Lease)
      requires Valid()
      requires Truthy(cacheDir) ==> target != null && target.Valid() && target.Accepts(ups)
      modifies this, target
      ensures Valid()
      ensures Truthy(cacheDir) ==>
        && lease == Persistent(cacheDir.value)
        && target.Valid()
        && target.files == Merged(old(target.files), ups)
        && target.dirs == MergedDirs(old(target.dirs), ups)
        && live == old(live) && issued == old(issued) && next == old(next)
      ensures !Truthy(cacheDir) ==>
        && lease == Temporary(old(next))
        && lease.id !in old(issued)
        && next == old(next) + 1
        && live == old(live) + {lease.id}
        && issued == old(issued) + {lease.id}
        && (target != null ==> unchanged(target))
    {
      if Truthy(cacheDir) {
        target.Merge(ups);
        lease := Persistent(cacheDir.value);
      } else {
        lease := Temporary(next);
        live := live + {next};
        issued := issued + {next};
        next := next + 1;
      }
    }

    /* Leaves the managed scope after its body completed normally: a
       temporary directory is removed, a persistent one is kept. */
    method Release(lease: Lease)
      requires Valid()
      modifies this
      ensures Valid()
      ensures live == if lease.Temporary? then old(live) - {lease.id} else old(live)
      ensures issued == old(issued) && next == old(next)
    {
      if lease.Temporary? {
        live := live - {lease.id};
      }
    }
  }
}
