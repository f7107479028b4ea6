/** The package name in the path of an installed apk, p/pkg-s/f. */
module PackagePath {
  import opened Options

  const KSU_MAX_PACKAGE_NAME: nat := 256

  ghost predicate Decomposes(path: string, p: string, pkg: string, s: string, f: string) {
    && path == p + "/" + pkg + "-" + s + "/" + f
    && pkg != "" && '/' !in pkg && '-' !in pkg
    && '/' !in s && '/' !in f
  }

  ghost predicate HasPackage(path: string, pkg: string) {
    1 <= |path| < KSU_MAX_PACKAGE_NAME && exists p, s, f :: Decomposes(path, p, pkg, s, f)
  }

  // The two last slashes are at k and l, and h is the first hyphen from k on.
  predicate Separators(path: string, k: nat, h: nat, l: nat) {
    && k + 1 < h < l < |path|
    && path[k] == '/' && path[h] == '-' && path[l] == '/'
    && (forall i | k < i < |path| && i != l :: path[i] != '/')
    && (forall i | k < i < h :: path[i] != '-')
  }

  lemma DecompositionSeparators(path: string, p: string, pkg: string, s: string, f: string)
    requires Decomposes(path, p, pkg, s, f)
    ensures var k := |p|; var h := k + 1 + |pkg|; var l := h + 1 + |s|;
            Separators(path, k, h, l) && p == path[..k] && pkg == path[k + 1..h] && s == path[h + 1..l] && f == path[l + 1..]
  {
    var k := |p|;
    var h := k + 1 + |pkg|;
    var l := h + 1 + |s|;
    assert path[..k] == p && path[k + 1..h] == pkg && path[h + 1..l] == s && path[l + 1..] == f;
    forall i | k < i < |path| && i != l
      ensures path[i] != '/'
    {
      if i < h { assert path[i] == pkg[i - k - 1]; }
      else if h < i < l { assert path[i] == s[i - h - 1]; }
      else if l < i { assert path[i] == f[i - l - 1]; }
    }
    forall i | k < i < h
      ensures path[i] != '-'
    {
      assert path[i] == pkg[i - k - 1];
    }
  }

  lemma SeparatorsDecompose(path: string, k: nat, h: nat, l: nat)
    requires Separators(path, k, h, l)
    ensures Decomposes(path, path[..k], path[k + 1..h], path[h + 1..l], path[l + 1..])
  {
    var p, pkg, s, f := path[..k], path[k + 1..h], path[h + 1..l], path[l + 1..];
    assert path == p + "/" + pkg + "-" + s + "/" + f;
  }

  lemma SeparatorsUnique(path: string, k: nat, h: nat, l: nat, k': nat, h': nat, l': nat)
    requires Separators(path, k, h, l) && Separators(path, k', h', l')
    ensures k == k' && h == h' && l == l'
  {
  }

  // A path decomposes in one way at most.
  lemma DecompositionUnique(path: string, p: string, pkg: string, s: string, f: string,
                            p': string, pkg': string, s': string, f': string)
    requires Decomposes(path, p, pkg, s, f) && Decomposes(path, p', pkg', s', f')
    ensures p == p' && pkg == pkg' && s == s' && f == f'
  {
    DecompositionSeparators(path, p, pkg, s, f);
    DecompositionSeparators(path, p', pkg', s', f');
    var k, k' := |p|, |p'|;
    SeparatorsUnique(path, k, k + 1 + |pkg|, k + 2 + |pkg| + |s|, k', k' + 1 + |pkg'|, k' + 2 + |pkg'| + |s'|);
  }

  ghost function PackageOf(path: string): (r: Option<string>)
    ensures forall pkg :: r == Some(pkg) <==> HasPackage(path, pkg)
  {
    if pkg :| HasPackage(path, pkg) then
      assert forall other | HasPackage(path, other) :: other == pkg by {
        forall other | HasPackage(path, other) ensures other == pkg {
          var p, s, f :| Decomposes(path, p, pkg, s, f);
          var p', s', f' :| Decomposes(path, p', other, s', f');
          DecompositionUnique(path, p, pkg, s, f, p', other, s', f');
        }
      }
      Some(pkg)
    else None
  }

  method GetPkgFromApkPath(path: string) returns (pkg: Option<string>)
    ensures forall name :: pkg == Some(name) <==> HasPackage(path, name)
    ensures pkg == PackageOf(path)
    ensures |path| == 0 || |path| >= 256 ==> pkg == None
    ensures 1 <= |path| < 256 ==> forall p, name, s, f | Decomposes(path, p, name, s, f) :: pkg == Some(name)
  {
    pkg := None;
    if |path| >= KSU_MAX_PACKAGE_NAME || |path| < 1 {
      return;
    }
    var lastSlash, secondLastSlash := -1, -1;
    var i := |path| - 1;
    while i >= 0
      invariant -1 <= i < |path|
      invariant secondLastSlash == -1
      invariant lastSlash == -1 || i < lastSlash < |path|
      invariant lastSlash != -1 ==> path[lastSlash] == '/'
      invariant forall j | i < j < |path| && j != lastSlash :: path[j] != '/'
    {
      if path[i] == '/' {
        if lastSlash == -1 {
          lastSlash := i;
        } else {
          secondLastSlash := i;
          break;
        }
      }
      i := i - 1;
    }
    if lastSlash == -1 || secondLastSlash == -1 {
      NoPackage(path);
      return;
    }
    var firstHyphen := secondLastSlash;
    while firstHyphen < |path| && path[firstHyphen] != '-'
      invariant secondLastSlash <= firstHyphen <= |path|
      invariant forall j | secondLastSlash <= j < firstHyphen :: path[j] != '-'
    {
      firstHyphen := firstHyphen + 1;
    }
    if firstHyphen == |path| || firstHyphen > lastSlash {
      NoPackage(path);
      return;
    }
    var pkgLen := firstHyphen - secondLastSlash - 1;
    if pkgLen >= KSU_MAX_PACKAGE_NAME || pkgLen <= 0 {
      NoPackage(path);
      return;
    }
    pkg := Some(path[secondLastSlash + 1..firstHyphen]);
    SeparatorsDecompose(path, secondLastSlash, firstHyphen, lastSlash);
    assert HasPackage(path, pkg.value);
    assert PackageOf(path) == pkg;
  }

  lemma NoPackage(path: string)
    requires forall k, h, l :: !Separators(path, k, h, l)
    ensures forall name :: !HasPackage(path, name)
  {
    forall name | HasPackage(path, name)
      ensures false
    {
      var p, s, f :| Decomposes(path, p, name, s, f);
      DecompositionSeparators(path, p, name, s, f);
    }
  }
}
