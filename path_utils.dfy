/** `indexer.utils.PathUtils`: ancestor tests over `java.nio.file.Path`.
    A path is the sequence of its name components below the file-system
    root, so `/a/b` is `["a", "b"]` and the root itself is `[]`.
    `Path.startsWith` compares whole components, never characters. */
module PathUtils {
  import opened JavaTypes

  type Path = seq<JString>

  /** `p.startsWith(q)`: the components of `q` are the first components of `p`. */
  predicate StartsWith(p: Path, q: Path) {
    |q| <= |p| && p[..|q|] == q
  }

  /** `PathUtils.pathsAreEqual(fst, snd)`: each path starts with the other,
      which is the same as having the same components. */
  predicate PathsAreEqual(fst: Path, snd: Path): (r: bool)
    ensures r <==> fst == snd
  {
    var r := StartsWith(fst, snd) && StartsWith(snd, fst);
    assert r ==> fst == fst[..|snd|];
    r
  }

  /** `PathUtils.firstPathIsParent(fst, snd)`: `fst` is `snd` or one of its
      ancestors, that is, a prefix of its components. */
  predicate FirstPathIsParent(fst: Path, snd: Path): (r: bool)
    ensures r <==> fst <= snd
  {
    StartsWith(snd, fst)
  }

  /** The test both indexes use to pick the entries under a removed directory:
      `!pathsAreEqual(dir, p) && firstPathIsParent(dir, p)`. */
  predicate IsStrictDescendant(dir: Path, p: Path) {
    !PathsAreEqual(dir, p) && FirstPathIsParent(dir, p)
  }

  /** `Path.getParent()` of a path with at least one component. */
  function Parent(p: Path): (r: Path)
    requires |p| > 0
    ensures FirstPathIsParent(r, p) && |r| == |p| - 1
  {
    p[..|p| - 1]
  }

  lemma ParentReflexive(a: Path)
    ensures FirstPathIsParent(a, a)
  {
    assert a[..|a|] == a;
  }

  lemma ParentTransitive(a: Path, b: Path, c: Path)
    ensures FirstPathIsParent(a, b) && FirstPathIsParent(b, c) ==> FirstPathIsParent(a, c)
  {
    if FirstPathIsParent(a, b) && FirstPathIsParent(b, c) {
      assert c[..|a|] == c[..|b|][..|a|];
    }
  }

  lemma ParentAntisymmetric(a: Path, b: Path)
    requires FirstPathIsParent(a, b) && FirstPathIsParent(b, a)
    ensures PathsAreEqual(a, b) && a == b
  {
  }

  /** "Parent and not equal" means strictly more components, which is how the
      indexes use it to find strict descendants. */
  lemma StrictDescendantIsLonger(dir: Path, p: Path)
    requires IsStrictDescendant(dir, p)
    ensures |p| > |dir| && p != dir
  {
  }

  /** A strict descendant is never a parent of its ancestor. */
  lemma StrictDescendantNotParent(dir: Path, p: Path)
    requires IsStrictDescendant(dir, p)
    ensures !FirstPathIsParent(p, dir)
  {
    StrictDescendantIsLonger(dir, p);
  }

  /** Prefixing is by component: `/a/bb` is not under `/a/b`, although the
      string "/a/b" is a prefix of "/a/bb". */
  lemma ComponentWisePrefix()
    ensures var a: JChar, b: JChar := 97, 98;
            !FirstPathIsParent([[a], [b]], [[a], [b, b]])
  {
    var a: JChar, b: JChar := 97, 98;
    assert [[a], [b, b]][..2][1] != [[a], [b]][1];
  }
}
