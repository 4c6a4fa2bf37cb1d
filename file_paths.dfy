/** The two `std::path` operations the executor relies on, for Unix paths. */
module FilePaths {
  import opened Types
  import opened Text

  predicate IsAbsolute(p: Path) {
    |p| > 0 && p[0] == '/'
  }

  /**
   * `PathBuf::join`: an absolute path replaces the base; otherwise a
   * separator is inserted unless the base is empty or already ends in one.
   */
  function JoinPath(base: Path, p: Path): Path {
    if IsAbsolute(p) then p
    else if |base| > 0 && base[|base| - 1] != '/' then base + "/" + p
    else base + p
  }

  /** Joining a relative path keeps the base as prefix and the path as suffix. */
  lemma JoinRelativeStaysUnder(base: Path, p: Path)
    requires !IsAbsolute(p)
    ensures base <= JoinPath(base, p)
    ensures |JoinPath(base, p)| >= |p| && JoinPath(base, p)[|JoinPath(base, p)| - |p|..] == p
  {
  }

  /**
   * `Path::parent`: the path without its last component; none for the
   * empty path and the root, the empty path for a single component.
   */
  function Parent(p: Path): (r: Option<Path>)
    ensures r.None? <==> p == "" || p == "/"
    ensures r == Some("") <==> p != "" && '/' !in p
    ensures r.Some? ==> r.value < p && '/' !in p[|r.value| + 1..]
    ensures r.Some? && r.value != "" && r.value != "/" ==> p[|r.value|] == '/'
  {
    if p == "" || p == "/" then None
    else if '/' !in p then Some("")
    else
      var k := LastIndexOf(p, '/');
      if k == 0 then Some("/") else Some(p[..k])
  }

  /** The parent of `base` joined with a single component is `base` again. */
  lemma ParentOfJoin(base: Path, name: Path)
    requires name != "" && '/' !in name
    requires base == "" || base[|base| - 1] != '/'
    ensures Parent(JoinPath(base, name)) == Some(base)
  {
    if base != "" {
      var s := base + "/" + name;
      assert s[|base|] == '/';
      var k := LastIndexOf(s, '/');
      assert s[..k] == base;
    }
  }

  /** `..` as a whole component of `p`, starting at index `i`. */
  predicate ParentComponentAt(p: Path, i: int) {
    && 0 <= i && i + 2 <= |p| && p[i] == '.' && p[i + 1] == '.'
    && (i == 0 || p[i - 1] == '/')
    && (i + 2 == |p| || p[i + 2] == '/')
  }

  /**
   * A relative path without `..` components: joined to a base, it names
   * something inside that base.
   */
  predicate Confined(p: Path) {
    !IsAbsolute(p) && forall i :: 0 <= i < |p| ==> !ParentComponentAt(p, i)
  }
}
