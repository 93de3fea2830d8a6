/** Option, Result and the width of a machine word, as Henka uses them. */
module Wrappers {
  const TWO_64: nat := 0x1_0000_0000_0000_0000

  datatype Option<+T> = None | Some(value: T)

  datatype Result<+T, +E> = Ok(value: T) | Err(error: E)
}

/** Paths as sequences of components; an absolute path starts with the root
    component `ROOT`. Components such as `..` are not part of this model. */
module Paths {
  import opened Wrappers

  type Path = seq<string>

  const ROOT := "/"

  predicate IsAbsolute(p: Path) {
    p != [] && p[0] == ROOT
  }

  /** Joining an absolute path replaces the base. */
  function Join(base: Path, p: Path): Path {
    if IsAbsolute(p) then p else base + p
  }

  predicate StartsWith(p: Path, prefix: Path) {
    prefix <= p
  }

  function StripPrefix(p: Path, prefix: Path): Option<Path> {
    if StartsWith(p, prefix) then Some(p[|prefix|..]) else None
  }

  /** A relative path resolves against the root, an absolute one stands alone. */
  function Resolve(p: Path, root: Path): Path {
    if IsAbsolute(p) then p else Join(root, p)
  }

  function Relativize(p: Path, root: Path): Path {
    var abs := Resolve(p, root);
    match StripPrefix(abs, root)
    case Some(rel) => rel
    case None => abs
  }

  function Retarget(p: Path, fromRoot: Path, toRoot: Path): Path {
    match StripPrefix(p, fromRoot)
    case Some(rel) => Join(toRoot, rel)
    case None => p
  }

  /** A root directory: absolute, with the root component nowhere else. */
  predicate IsRoot(p: Path) {
    IsAbsolute(p) && forall i :: 1 <= i < |p| ==> p[i] != ROOT
  }

  /** A well-formed path mentions the root component at most at its front. */
  predicate WellFormed(p: Path) {
    forall i :: 1 <= i < |p| ==> p[i] != ROOT
  }

  /** The extension of a path: what follows the last dot of its last component,
      unless that dot is the component's first character. */
  function Extension(p: Path): Option<string> {
    if p == [] || p[|p| - 1] == ROOT then None
    else
      var name := p[|p| - 1];
      var dot := LastDot(name, |name|);
      if dot <= 0 then None else Some(name[dot + 1..])
  }

  /** The index of the last dot of `name[..n]`, or -1. */
  function LastDot(name: string, n: nat): (dot: int)
    requires n <= |name|
    ensures -1 <= dot < n
    ensures dot >= 0 ==> name[dot] == '.'
    ensures forall i :: dot < i < n ==> name[i] != '.'
  {
    if n == 0 then -1 else if name[n - 1] == '.' then n - 1 else LastDot(name, n - 1)
  }

  /** The name is something, a dot, and this ending, which has no dot. */
  predicate Ends(name: string, ending: string) {
    |name| >= |ending| + 2 && name[|name| - |ending| - 1..] == "." + ending && '.' !in ending
  }

  lemma ExtensionExactly(p: Path, ending: string)
    ensures Extension(p) == Some(ending) <==> p != [] && p[|p| - 1] != ROOT && Ends(p[|p| - 1], ending)
  {
    if p != [] && p[|p| - 1] != ROOT {
      var name := p[|p| - 1];
      var dot := LastDot(name, |name|);
      if Ends(name, ending) {
        var k := |name| - |ending| - 1;
        assert name[k..][0] == '.' && name[k..][1..] == ending;
        forall i | k < i < |name| ensures name[i] != '.' {
          assert name[i] == ending[i - k - 1];
        }
        assert dot == k && name[dot + 1..] == ending;
      }
      if dot > 0 && name[dot + 1..] == ending {
        assert name[dot..] == "." + ending;
      }
    }
  }

  /** A path below the root is reported as the way down from it, any other as it is. */
  lemma RelativizeExactly(p: Path, root: Path)
    ensures StartsWith(Resolve(p, root), root) ==> root + Relativize(p, root) == Resolve(p, root)
    ensures !StartsWith(Resolve(p, root), root) ==> Relativize(p, root) == Resolve(p, root) == p
  {
  }

  /** Reporting a path relative to the root and resolving it again is the identity,
      so a changed-files list names exactly the files that were written. */
  lemma ResolveRelativize(p: Path, root: Path)
    requires IsRoot(root) && WellFormed(p)
    ensures Resolve(Relativize(p, root), root) == Resolve(p, root)
  {
    var abs := Resolve(p, root);
    if StartsWith(abs, root) {
      assert root + abs[|root|..] == abs;
    }
  }

  /** Two prefixes of one path nest. */
  lemma PrefixesNest(p: Path, a: Path, b: Path)
    ensures StartsWith(p, a) && StartsWith(p, b) ==> StartsWith(a, b) || StartsWith(b, a)
  {
    if StartsWith(p, a) && StartsWith(p, b) {
      if |a| <= |b| {
        assert b[..|a|] == p[..|a|];
      } else {
        assert a[..|b|] == p[..|b|];
      }
    }
  }
}
