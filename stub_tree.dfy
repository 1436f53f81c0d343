/**
 The stub-package normaliser of mypy/private/py_type_library.py: every
 top-level package directory of an input site-packages is copied into the
 output site-packages under its name with one trailing "-stubs" removed; a
 destination that already exists makes the copy fail.
 */
module StubTree {
  import opened Fs

  const StubSuffix := "-stubs"

  predicate EndsWith(s: string, suffix: string)
  {
    |suffix| <= |s| && s[|s| - |suffix|..] == suffix
  }

  /* _clean: the package name with one trailing "-stubs" removed, if it has one. */
  function Clean(package: string): (r: string)
    ensures EndsWith(package, StubSuffix) ==> r + StubSuffix == package
    ensures !EndsWith(package, StubSuffix) ==> r == package
  {
    if EndsWith(package, StubSuffix) then
      var r := package[..|package| - |StubSuffix|];
      assert package == r + package[|r|..];
      r
    else package
  }

  /* Cleaning keeps a prefix of the name and drops nothing or exactly the suffix's length. */
  lemma CleanIsPrefix(package: string)
    ensures Clean(package) <= package
    ensures |Clean(package)| == |package| || |Clean(package)| == |package| - |StubSuffix|
  {
  }

  /* Cleaning undoes appending the suffix. */
  lemma CleanStripsSuffix(x: string)
    ensures Clean(x + StubSuffix) == x
  {
    assert (x + StubSuffix)[|x|..] == StubSuffix;
    assert (x + StubSuffix)[..|x|] == x;
  }

  /* A name changes exactly when it ends in the suffix, and then what was
     removed is the suffix. */
  lemma CleanChanges(x: string)
    ensures Clean(x) != x <==> EndsWith(x, StubSuffix)
    ensures Clean(x) != x ==> Clean(x) + StubSuffix == x
  {
    if EndsWith(x, StubSuffix) {
      assert x == x[..|x| - |StubSuffix|] + x[|x| - |StubSuffix|..];
    }
  }

  /* Only one suffix goes. */
  lemma CleanStripsOnce()
    ensures Clean("a-stubs-stubs") == "a-stubs"
    ensures Clean("-stubs") == ""
    ensures Clean("foo") == "foo"
  {
    CleanStripsSuffix("a-stubs");
    CleanStripsSuffix("");
    CleanChanges("foo");
  }

  /* Names that site-packages/name resolves to a directory that always
     exists: site-packages itself for "" and ".", its parent for "..". */
  predicate Reserved(name: string)
  {
    name == "" || name == "." || name == ".."
  }

  /* The destination site-packages/name already exists: a package there, or
     a directory a reserved name resolves to. */
  predicate Occupied<T>(existing: map<string, T>, name: string)
  {
    Reserved(name) || name in existing
  }

  /* The input packages cannot all be copied: two clean to one name, or a
     cleaned name is already taken in the output. */
  predicate Collides<T>(input: map<string, T>, existing: map<string, T>)
  {
    || (exists a, b :: a in input && b in input && a != b && Clean(a) == Clean(b))
    || (exists a :: a in input && Occupied(existing, Clean(a)))
  }

  /* out is existing with every input package copied in under its cleaned name. */
  ghost predicate IsRenamedCopy<T>(out: map<string, T>, input: map<string, T>, existing: map<string, T>)
  {
    && out.Keys == existing.Keys + (set n | n in input :: Clean(n))
    && (forall n :: n in input ==> out[Clean(n)] == input[n])
    && (forall k :: k in existing ==> out[k] == existing[k])
  }

  /* At most one output satisfies the description, so the result of a
     successful copy is the same whatever order the packages are listed in. */
  lemma RenamedCopyUnique<T>(a: map<string, T>, b: map<string, T>,
                          input: map<string, T>, existing: map<string, T>)
    requires IsRenamedCopy(a, input, existing) && IsRenamedCopy(b, input, existing)
    ensures a == b
  {
    forall k | k in a
      ensures a[k] == b[k]
    {
      if k !in existing {
        var n :| n in input && Clean(n) == k;
      }
    }
  }

  /* When nothing collides, each new output package is the subtree of the
     one input package that cleans to its name. */
  lemma RenamedCopyContents<T>(out: map<string, T>, input: map<string, T>, existing: map<string, T>, k: string)
    requires IsRenamedCopy(out, input, existing) && !Collides(input, existing)
    requires k in out && k !in existing
    ensures exists n :: n in input && Clean(n) == k && out[k] == input[n]
    ensures forall n, m :: n in input && m in input && Clean(n) == k && Clean(m) == k ==> n == m
  {
  }

  /* "foo" and "bar-stubs" clean to distinct, free names, so copying them succeeds. */
  lemma NormaliseRenamesSucceeds<T>(foo: T, bar: T)
    ensures !Collides(map["foo" := foo, "bar-stubs" := bar], map[])
  {
    assert "bar" + StubSuffix == "bar-stubs";
    CleanStripsSuffix("bar");
    CleanChanges("foo");
  }

  /* "foo" and "bar-stubs" land as "foo" and "bar", with their own subtrees. */
  lemma NormaliseRenames<T>(foo: T, bar: T, out: map<string, T>)
    requires IsRenamedCopy(out, map["foo" := foo, "bar-stubs" := bar], map[])
    ensures out == map["foo" := foo, "bar" := bar]
  {
    var input := map["foo" := foo, "bar-stubs" := bar];
    assert "bar" + StubSuffix == "bar-stubs";
    CleanStripsSuffix("bar");
    CleanChanges("foo");
    assert (set n | n in input :: Clean(n)) == {"foo", "bar"};
    RenamedCopyUnique(out, map["foo" := foo, "bar" := bar], input, map[]);
  }

  /* "foo" and "foo-stubs" both clean to "foo". */
  lemma NormaliseCollides<T>(foo: T, fooStubs: T)
    ensures Collides(map["foo" := foo, "foo-stubs" := fooStubs], map[])
  {
    assert "foo" + StubSuffix == "foo-stubs";
    CleanStripsSuffix("foo");
    CleanChanges("foo");
    var input := map["foo" := foo, "foo-stubs" := fooStubs];
    assert "foo" in input && "foo-stubs" in input && "foo" != "foo-stubs";
  }

  /* A single package named a reserved name plus the suffix collides. */
  lemma ReservedCollides<T>(x: string, t: T)
    requires Reserved(x)
    ensures Collides(map[x + StubSuffix := t], map[])
  {
    CleanStripsSuffix(x);
    assert x + StubSuffix in map[x + StubSuffix := t];
  }

  /* Packages called "-stubs", ".-stubs" or "..-stubs" would be copied onto
     site-packages itself or onto its parent. */
  lemma NormaliseReservedCollides<T>(t: T)
    ensures Collides(map["-stubs" := t], map[])
    ensures Collides(map[".-stubs" := t], map[])
    ensures Collides(map["..-stubs" := t], map[])
  {
    assert "" + StubSuffix == "-stubs";
    assert "." + StubSuffix == ".-stubs";
    assert ".." + StubSuffix == "..-stubs";
    ReservedCollides("", t);
    ReservedCollides(".", t);
    ReservedCollides("..", t);
  }

  /* order lists the names of input, each once. */
  ghost predicate Listing<K, T>(input: map<K, T>, order: seq<K>)
  {
    && (forall n :: n in input ==> n in order)
    && (forall i :: 0 <= i < |order| ==> order[i] in input)
    && (forall i, j :: 0 <= i < j < |order| ==> order[i] != order[j])
  }

  /* dests are the cleaned names of the first |dests| packages of the
     listing, none of them reserved. */
  ghost predicate CleanedNames(order: seq<string>, dests: seq<string>)
  {
    |dests| <= |order| && forall j :: 0 <= j < |dests| ==> dests[j] == Clean(order[j]) && !Reserved(dests[j])
  }

  /* The state after copying the first |dests| packages of the listing into
     base, to the destinations dests, without meeting an existing one; at
     gives the position in dests of each new destination, so no destination
     is used twice. */
  ghost predicate Progress<K, T>(pkgs: map<K, T>, base: map<K, T>, input: map<K, T>,
                              order: seq<K>, dests: seq<K>, at: map<K, nat>)
  {
    && |dests| <= |order|
    && pkgs.Keys == base.Keys + at.Keys
    && (forall k :: k in at ==> at[k] < |dests| && dests[at[k]] == k && k !in base)
    && (forall j :: 0 <= j < |dests| ==> dests[j] in at && at[dests[j]] == j)
    && (forall j :: 0 <= j < |dests| ==> order[j] in input && pkgs[dests[j]] == input[order[j]])
    && (forall k :: k in base ==> pkgs[k] == base[k])
  }

  /* Copying the next package to a destination d that does not exist yet. */
  lemma ProgressStep<K, T>(pkgs: map<K, T>, base: map<K, T>, input: map<K, T>,
                           order: seq<K>, dests: seq<K>, at: map<K, nat>, d: K)
    requires Progress(pkgs, base, input, order, dests, at)
    requires |dests| < |order| && order[|dests|] in input && d !in pkgs
    ensures Progress(pkgs[d := input[order[|dests|]]], base, input, order, dests + [d], at[d := |dests|])
  {
    var i := |dests|;
    var pkgs' := pkgs[d := input[order[i]]];
    var dests' := dests + [d];
    var at' := at[d := i];
    forall k | k in at'
      ensures at'[k] < |dests'| && dests'[at'[k]] == k && k !in base
    {
      if k != d {
        assert dests'[at[k]] == dests[at[k]];
      }
    }
    forall j | 0 <= j < i + 1
      ensures dests'[j] in at' && at'[dests'[j]] == j
      ensures order[j] in input && pkgs'[dests'[j]] == input[order[j]]
    {
      if j < i {
        assert dests'[j] == dests[j] && dests[j] in pkgs;
      }
    }
  }

  /* Every new entry of the output is a copy of an input package, under
     that package's cleaned name. */
  lemma ProgressNewEntries<T>(pkgs: map<string, T>, base: map<string, T>, input: map<string, T>,
                              order: seq<string>, dests: seq<string>, at: map<string, nat>)
    requires Progress(pkgs, base, input, order, dests, at) && CleanedNames(order, dests)
    ensures forall k :: k in pkgs && k !in base ==> exists n :: n in input && Clean(n) == k && pkgs[k] == input[n]
  {
    forall k | k in pkgs && k !in base
      ensures exists n :: n in input && Clean(n) == k && pkgs[k] == input[n]
    {
      var j := at[k];
      assert order[j] in input && Clean(order[j]) == k;
    }
  }

  /* Meeting a destination that is already taken part way through the
     listing: the input collides. */
  lemma ProgressCollision<T>(pkgs: map<string, T>, base: map<string, T>, input: map<string, T>,
                             order: seq<string>, dests: seq<string>, at: map<string, nat>)
    requires Listing(input, order)
    requires Progress(pkgs, base, input, order, dests, at) && CleanedNames(order, dests)
    requires |dests| < |order| && Occupied(pkgs, Clean(order[|dests|]))
    ensures Collides(input, base)
    ensures order[|dests|] in input
  {
    var i := |dests|;
    var dest := Clean(order[i]);
    assert order[i] in input;
    if !Reserved(dest) && dest !in base {
      var j := at[dest];
      assert order[j] in input && order[j] != order[i] && Clean(order[j]) == dest;
    }
  }

  /* The whole listing copied: the input did not collide. */
  lemma ProgressDoneNoCollision<T>(pkgs: map<string, T>, base: map<string, T>, input: map<string, T>,
                                   order: seq<string>, dests: seq<string>, at: map<string, nat>)
    requires Listing(input, order)
    requires Progress(pkgs, base, input, order, dests, at) && CleanedNames(order, dests)
    requires |dests| == |order|
    ensures !Collides(input, base)
  {
    forall a, b | a in input && b in input && Clean(a) == Clean(b)
      ensures a == b
    {
      var ia :| 0 <= ia < |order| && order[ia] == a;
      var ib :| 0 <= ib < |order| && order[ib] == b;
      assert at[dests[ia]] == ia && at[dests[ib]] == ib;
    }
    forall a | a in input
      ensures !Occupied(base, Clean(a))
    {
      var ia :| 0 <= ia < |order| && order[ia] == a;
      assert dests[ia] == Clean(a) && dests[ia] in at && !Reserved(dests[ia]);
    }
  }

  /* The whole listing copied: the output's names are the old ones and the
     cleaned input names. */
  lemma ProgressDoneKeys<T>(pkgs: map<string, T>, base: map<string, T>, input: map<string, T>,
                            order: seq<string>, dests: seq<string>, at: map<string, nat>)
    requires Listing(input, order)
    requires Progress(pkgs, base, input, order, dests, at) && CleanedNames(order, dests)
    requires |dests| == |order|
    ensures pkgs.Keys == base.Keys + (set n | n in input :: Clean(n))
  {
    var cleaned := set n | n in input :: Clean(n);
    assert cleaned <= at.Keys by {
      forall a | a in input
        ensures Clean(a) in at
      {
        var ia :| 0 <= ia < |order| && order[ia] == a;
        assert dests[ia] == Clean(a);
      }
    }
    assert at.Keys <= cleaned by {
      forall k | k in at
        ensures k in cleaned
      {
        var j := at[k];
        assert order[j] in input && Clean(order[j]) == k;
      }
    }
  }

  /* The whole listing copied: the output is the input's renamed copy. */
  lemma ProgressDoneCopy<T>(pkgs: map<string, T>, base: map<string, T>, input: map<string, T>,
                            order: seq<string>, dests: seq<string>, at: map<string, nat>)
    requires Listing(input, order)
    requires Progress(pkgs, base, input, order, dests, at) && CleanedNames(order, dests)
    requires |dests| == |order|
    ensures IsRenamedCopy(pkgs, input, base)
  {
    ProgressDoneKeys(pkgs, base, input, order, dests, at);
    forall a | a in input
      ensures pkgs[Clean(a)] == input[a]
    {
      var ia :| 0 <= ia < |order| && order[ia] == a;
      assert dests[ia] == Clean(a);
    }
  }

  /* Why main stops. */
  datatype Failure = MissingInput | NameCollision(name: string)

  /* The output directory; entries of site-packages are package subtrees. */
  class OutputDir<T> {
    /* Whether output/site-packages exists. */
    var sitePackages: bool
    var packages: map<string, T>

    /* No packages without a site-packages directory to hold them. */
    predicate Valid()
      reads this
    {
      !sitePackages ==> packages == map[]
    }

    constructor (sitePackages: bool, packages: map<string, T>)
      requires !sitePackages ==> packages == map[]
      ensures Valid()
      ensures this.sitePackages == sitePackages && this.packages == packages
    {
      this.sitePackages := sitePackages;
      this.packages := packages;
    }

    /* The copy loop of main: copies the packages in the order the directory
       listing gives them; the first destination that already exists stops
       the copy with that name, leaving what was copied. */
    method CopyPackages(input: map<string, T>, order: seq<string>) returns (collision: Option<string>)
      requires sitePackages
      requires Listing(input, order)
      modifies this
      ensures sitePackages
      ensures collision.None? <==> !Collides(input, old(packages))
      ensures collision.None? ==> IsRenamedCopy(packages, input, old(packages))
      ensures collision.Some? ==>
        && (exists n :: n in input && Clean(n) == collision.value)
        && (forall k :: k in old(packages) ==> k in packages && packages[k] == old(packages)[k])
        && (forall k :: k in packages && k !in old(packages) ==>
              exists n :: n in input && Clean(n) == k && packages[k] == input[n])
    {
      var i := 0;
      ghost var dests: seq<string> := [];
      ghost var at: map<string, nat> := map[];
      while i < |order|
        invariant sitePackages
        invariant |dests| == i
        invariant CleanedNames(order, dests)
        invariant Listing(input, order)
        invariant Progress(packages, old(packages), input, order, dests, at)
      {
        var dest := Clean(order[i]);
        if Occupied(packages, dest) {
          ProgressCollision(packages, old(packages), input, order, dests, at);
          ProgressNewEntries(packages, old(packages), input, order, dests, at);
          collision := Some(dest);
          return;
        }
        ProgressStep(packages, old(packages), input, order, dests, at, dest);
        packages := packages[dest := input[order[i]]];
        dests, at := dests + [dest], at[dest := i];
        i := i + 1;
      }
      collision := None;
      ProgressDoneNoCollision(packages, old(packages), input, order, dests, at);
      ProgressDoneCopy(packages, old(packages), input, order, dests, at);
    }

    /* main: creates output/site-packages if missing, then copies every
       package of input/site-packages; input is None when that directory
       does not exist, which fails once the listing is read. */
    method Normalise(input: Option<map<string, T>>, order: seq<string>) returns (failure: Option<Failure>)
      requires Valid()
      requires input.Some? ==> Listing(input.value, order)
      modifies this
      ensures Valid() && sitePackages
      ensures failure == Some(MissingInput) <==> input.None?
      ensures input.None? ==> packages == old(packages)
      ensures input.Some? ==> (failure.None? <==> !Collides(input.value, old(packages)))
      ensures input.Some? && failure.None? ==> IsRenamedCopy(packages, input.value, old(packages))
      ensures input.Some? && failure.Some? ==>
        && failure.value.NameCollision?
        && (exists n :: n in input.value && Clean(n) == failure.value.name)
        && (forall k :: k in old(packages) ==> k in packages && packages[k] == old(packages)[k])
    {
      sitePackages := true;
      if input.None? {
        return Some(MissingInput);
      }
      var collision := CopyPackages(input.value, order);
      failure := if collision.Some? then Some(NameCollision(collision.value)) else None;
    }
  }
}
