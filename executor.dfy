/**
 * `process_item` and `download`: what is done for each classified path.
 * Actions are described, not performed; the filesystem and HTTP calls that
 * carry them out are outside the model.
 */
module Executor {
  import opened Types
  import opened BaseUrl
  import opened FilePaths
  import opened Manifest
  import opened Reconciliation

  datatype Action =
    | Nothing                                               // only a log line
    | Remove(file: Path)                                    // `fs::remove_file`
    | Fetch(url: string, createDirs: Option<Path>, output: Path)
      // `fs::create_dir_all` on the parent if there is one, then GET `url` into `output`
    | Refuse(path: Path)                                    // an error: the path leaves `target`

  /**
   * `process_item` as written: the purge removes `path` itself, not
   * `target/path`, and a manifest path is joined to `target` whatever it is.
   */
  function ProcessItemAsWritten(path: Path, item: DumbItem, baseUrl: string, target: Path, purge: bool): Action {
    match item
    case Uptodate => Nothing
    case Local => if purge then Remove(path) else Nothing
    case _ =>
      var output := JoinPath(target, path);
      Fetch(ResolveRelative(baseUrl, path), Parent(output), output)
  }

  /** The purge of a local-only file as written misses the synchronised tree. */
  lemma PurgeAsWrittenMissesTarget()
    ensures ProcessItemAsWritten("a.txt", Local, "https://host/", "/srv/mirror", true) == Remove("a.txt")
    ensures JoinPath("/srv/mirror", "a.txt") == "/srv/mirror/a.txt" != "a.txt"
  {
  }

  /**
   * As written, the manifest decides where files are written: an absolute
   * path replaces `target`, and a `..` component climbs out of it.
   */
  lemma ManifestPathEscapesAsWritten()
    ensures ProcessItemAsWritten("/etc/x", Remote, "https://host/", "/srv/mirror", false).output == "/etc/x"
    ensures !("/srv/mirror" <= "/etc/x")
    ensures ProcessItemAsWritten("../../etc/x", Remote, "https://host/", "/srv/mirror", false).output
            == "/srv/mirror" + "/" + "../../etc/x"
    ensures !Confined("/etc/x") && !Confined("../../etc/x")
  {
    assert ParentComponentAt("../../etc/x", 0);
  }

  /**
   * `process_item` with the purge applied to `target/path`, like the
   * download, and with a path that is absolute or climbs with `..` refused
   * instead of acted on.
   */
  function ProcessItem(path: Path, item: DumbItem, baseUrl: string, target: Path, purge: bool): Action {
    match item
    case Uptodate => Nothing
    case Local =>
      if !purge then Nothing
      else if Confined(path) then Remove(JoinPath(target, path))
      else Refuse(path)
    case _ =>
      if Confined(path) then
        var output := JoinPath(target, path);
        Fetch(ResolveRelative(baseUrl, path), Parent(output), output)
      else Refuse(path)
  }

  /**
   * Uptodate does nothing; Local is removed only under purge; Remote and
   * Outdated are fetched; any of those on a path leaving `target` is
   * refused. Every file touched is `target/path` for a confined `path`, and
   * the directories created are a proper prefix of it (`target` itself for
   * a top-level file).
   */
  lemma ProcessItemDecides(path: Path, item: DumbItem, baseUrl: string, target: Path, purge: bool)
    ensures var a := ProcessItem(path, item, baseUrl, target, purge);
      && (a.Nothing? <==> item == Uptodate || (item == Local && !purge))
      && (a.Refuse? <==> !Confined(path) && (item == Remote || item == Outdated || (item == Local && purge)))
      && (a.Remove? <==> Confined(path) && item == Local && purge)
      && (a.Fetch? <==> Confined(path) && (item == Remote || item == Outdated))
      && (a.Refuse? ==> a.path == path)
      && (a.Remove? ==> a.file == JoinPath(target, path))
      && (a.Fetch? ==> a.output == JoinPath(target, path) && a.url == ResolveRelative(baseUrl, path))
      && (a.Fetch? && a.createDirs.Some? ==> a.createDirs.value < a.output)
      && (a.Fetch? && path != "" && '/' !in path && (target == "" || target[|target| - 1] != '/') ==>
            a.createDirs == Some(target))
      && (a.Remove? || a.Fetch? ==> target <= (if a.Remove? then a.file else a.output))
  {
    var a := ProcessItem(path, item, baseUrl, target, purge);
    if a.Fetch? || a.Remove? {
      JoinRelativeStaysUnder(target, path);
    }
    if a.Fetch? && path != "" && '/' !in path && (target == "" || target[|target| - 1] != '/') {
      ParentOfJoin(target, path);
    }
  }

  /**
   * `download`: normalises the base URL and decides the action of every
   * classified path independently (the source runs them in parallel).
   */
  function Download(url: string, target: Path, aggregated: map<Path, DumbItem>, purge: bool): map<Path, Action> {
    var baseUrl := WithTrailingSlash(url);
    map p | p in aggregated :: ProcessItem(p, aggregated[p], baseUrl, target, purge)
  }

  /** The action `download` takes for `path` classified as `item`. */
  predicate Planned(url: string, target: Path, path: Path, item: DumbItem, purge: bool, a: Action) {
    && (a.Remove? <==> Confined(path) && purge && item == Local)
    && (a.Fetch? <==> Confined(path) && (item == Remote || item == Outdated))
    && (a.Refuse? <==> !Confined(path) && (item == Remote || item == Outdated || (item == Local && purge)))
    && (a.Fetch? ==> a.url == WithTrailingSlash(url) + path && a.output == JoinPath(target, path))
    && (item == Uptodate ==> a == Nothing)
  }

  /**
   * Every classified path gets an action; with purge exactly the Local
   * paths are removed, without it none; exactly the Remote and Outdated
   * paths are fetched, from the base URL followed by the path; paths
   * leaving `target` are neither removed nor fetched.
   */
  lemma DownloadPlan(url: string, target: Path, aggregated: map<Path, DumbItem>, purge: bool)
    ensures Download(url, target, aggregated, purge).Keys == aggregated.Keys
    ensures forall p :: p in aggregated ==>
      Planned(url, target, p, aggregated[p], purge, Download(url, target, aggregated, purge)[p])
  {
    var plan := Download(url, target, aggregated, purge);
    forall p | p in aggregated
      ensures Planned(url, target, p, aggregated[p], purge, plan[p])
    {
      ProcessItemDecides(p, aggregated[p], WithTrailingSlash(url), target, purge);
      NormalizedBaseKeepsUrl(url, p);
    }
  }

  lemma AllUptodateKeys(s: seq<Path>)
    ensures (map p | p in s :: Uptodate).Keys == Elements(s)
  {
  }

  /** A classification that is all Uptodate leads to no action at all. */
  lemma UptodateNeedsNothing(url: string, target: Path, aggregated: map<Path, DumbItem>, purge: bool)
    requires forall p :: p in aggregated ==> aggregated[p] == Uptodate
    ensures forall p :: p in aggregated ==> Download(url, target, aggregated, purge)[p] == Nothing
  {
  }

  /**
   * Syncing a tree that holds the listed files against the manifest built
   * without the manifest file performs no action at all, even after the
   * manifest write changed that one file's hash.
   */
  lemma RegeneratedTreeNeedsNothing(url: string, target: Path, files: seq<Path>,
                                    digest: Path -> Option<HexDigest>, digest': Path -> Option<HexDigest>, purge: bool)
    requires AllReadable(WithoutManifest(files), digest)
    requires forall i :: 0 <= i < |files| ==> '\n' !in files[i]
    requires forall i, j :: 0 <= i < j < |files| ==> files[i] != files[j]
    requires forall p :: p != ManifestFileName ==> digest'(p) == digest(p)
    ensures var listed := WithoutManifest(files);
      var r := Reconciled(listed, ParseManifest(Serialize(ManifestOf(listed, digest))), digest');
      && r.Success?
      && r.value.Keys == Elements(listed)
      && forall p :: p in r.value ==> Download(url, target, r.value, purge)[p] == Nothing
  {
    var listed := WithoutManifest(files);
    var all := map p | p in listed :: Uptodate;
    RegeneratedTreeIsUptodate(files, digest, digest');
    UptodateNeedsNothing(url, target, all, purge);
    AllUptodateKeys(listed);
  }

  /**
   * As written, `process_item` on a client holding the whole regenerated
   * tree fetches the manifest file again on every sync, since its listed
   * hash is stale.
   */
  lemma StaleManifestRefetched(url: string, target: Path, files: seq<Path>,
                               digest: Path -> Option<HexDigest>, digest': Path -> Option<HexDigest>, purge: bool)
    requires AllReadable(files, digest) && AllReadable(files, digest')
    requires forall i :: 0 <= i < |files| ==> '\n' !in files[i]
    requires forall i, j :: 0 <= i < j < |files| ==> files[i] != files[j]
    requires ManifestFileName in files
    requires digest'(ManifestFileName) != digest(ManifestFileName)
    ensures var r := Reconciled(files, ParseManifest(Serialize(ManifestOf(files, digest))), digest');
      && r.Success? && ManifestFileName in r.value
      && var a := ProcessItemAsWritten(ManifestFileName, r.value[ManifestFileName], WithTrailingSlash(url), target, purge);
         a.Fetch? && a.url == WithTrailingSlash(url) + ManifestFileName
         && a.output == JoinPath(target, ManifestFileName)
  {
    StaleManifestEntryIsOutdated(files, digest, digest');
    NormalizedBaseKeepsUrl(url, ManifestFileName);
  }
}
