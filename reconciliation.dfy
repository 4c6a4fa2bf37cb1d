/**
 * `aggregate`: classifies every local path and every manifest path as
 * Local, Remote, Uptodate or Outdated.
 */
module Reconciliation {
  import opened Types
  import opened Text
  import opened Manifest
  import opened BaseUrl

  datatype DumbItem = Local | Remote | Uptodate | Outdated

  function Elements(s: seq<Path>): set<Path> {
    set x | x in s
  }

  /** The paths a sequence of manifest entries mentions. */
  function PathsOf(es: seq<Entry>): set<Path> {
    set i | 0 <= i < |es| :: es[i].path
  }

  lemma PathsOfAppend(es: seq<Entry>, e: Entry)
    ensures PathsOf(es + [e]) == PathsOf(es) + {e.path}
  {
    var s := es + [e];
    assert s[|es|] == e;
    forall p | p in PathsOf(es) ensures p in PathsOf(s) {
      var i :| 0 <= i < |es| && es[i].path == p;
      assert s[i] == es[i];
    }
  }

  /** How many entries name `p`. */
  function Count(es: seq<Entry>, p: Path): nat {
    if es == [] then 0
    else Count(es[..|es| - 1], p) + (if es[|es| - 1].path == p then 1 else 0)
  }

  /** The digest text on the last entry that names `p`. */
  function LastHash(es: seq<Entry>, p: Path): string
    requires p in PathsOf(es)
  {
    var n := |es| - 1;
    if es[n].path == p then es[n].hash
    else
      assert p in PathsOf(es[..n]) by {
        var i :| 0 <= i < |es| && es[i].path == p;
        assert es[..n][i] == es[i];
      }
      LastHash(es[..n], p)
  }

  lemma {:induction false} CountPositive(es: seq<Entry>, p: Path)
    ensures Count(es, p) > 0 <==> p in PathsOf(es)
  {
    if es != [] {
      var n := |es| - 1;
      assert es == es[..n] + [es[n]];
      PathsOfAppend(es[..n], es[n]);
      CountPositive(es[..n], p);
    }
  }

  /** Status of a path the manifest names; `local` is the walked tree. */
  function RemoteStatus(local: seq<Path>, es: seq<Entry>, digest: Path -> Option<HexDigest>, p: Path): DumbItem
    requires p in PathsOf(es)
  {
    if p in local && Count(es, p) == 1 then
      (if digest(p).Some? && digest(p).value == LastHash(es, p) then Uptodate else Outdated)
    else Remote
  }

  /** The classification of every local or manifest path. */
  function Expected(local: seq<Path>, es: seq<Entry>, digest: Path -> Option<HexDigest>): map<Path, DumbItem> {
    map p | p in Elements(local) + PathsOf(es) ::
      if p in PathsOf(es) then RemoteStatus(local, es, digest, p) else Local
  }

  /**
   * Entry `i` is the first naming a path of the local tree, so the file
   * must be hashed, and hashing it fails.
   */
  predicate HashFails(local: seq<Path>, es: seq<Entry>, digest: Path -> Option<HexDigest>, i: nat)
    requires i < |es|
  {
    es[i].path in local && es[i].path !in PathsOf(es[..i]) && digest(es[i].path).None?
  }

  /** The first unreadable entry at or after `from`, if any. */
  function FirstHashFailure(local: seq<Path>, es: seq<Entry>, digest: Path -> Option<HexDigest>, from: nat): (r: Option<nat>)
    requires from <= |es|
    ensures r.Some? ==> from <= r.value < |es| && HashFails(local, es, digest, r.value)
    ensures r.Some? ==> forall j :: from <= j < r.value ==> !HashFails(local, es, digest, j)
    ensures r.None? ==> forall j :: from <= j < |es| ==> !HashFails(local, es, digest, j)
    decreases |es| - from
  {
    if from == |es| then None
    else if HashFails(local, es, digest, from) then Some(from)
    else FirstHashFailure(local, es, digest, from + 1)
  }

  /**
   * The outcome `aggregate` must produce for the walked tree `local` and the
   * parsed manifest `es`: the first failed hash aborts, otherwise the full
   * classification.
   */
  function Reconciled(local: seq<Path>, es: seq<Entry>, digest: Path -> Option<HexDigest>): Result<map<Path, DumbItem>, Error> {
    match FirstHashFailure(local, es, digest, 0)
    case Some(i) => Failure(Unreadable(es[i].path))
    case None => Success(Expected(local, es, digest))
  }

  /** `Vec::retain(|l| !path.eq(l))`: every copy of `p` goes, nothing else. */
  function Retain(s: seq<Path>, p: Path): (r: seq<Path>)
    ensures multiset(r) == multiset(s)[p := 0]
  {
    if s == [] then []
    else
      assert s == [s[0]] + s[1..];
      if s[0] == p then Retain(s[1..], p) else [s[0]] + Retain(s[1..], p)
  }

  /** Where the manifest of a published tree is fetched from. */
  function ManifestUrl(url: string): string {
    ResolveRelative(WithTrailingSlash(url), ManifestFileName)
  }

  lemma HashFailsExtend(local: seq<Path>, es: seq<Entry>, more: seq<Entry>, digest: Path -> Option<HexDigest>, j: nat)
    requires j < |es|
    ensures HashFails(local, es + more, digest, j) == HashFails(local, es, digest, j)
  {
    assert (es + more)[..j] == es[..j];
    assert (es + more)[j] == es[j];
  }

  lemma StatusExtend(local: seq<Path>, es: seq<Entry>, e: Entry, digest: Path -> Option<HexDigest>, q: Path)
    requires q in PathsOf(es) && q != e.path
    ensures q in PathsOf(es + [e])
    ensures RemoteStatus(local, es + [e], digest, q) == RemoteStatus(local, es, digest, q)
  {
    PathsOfAppend(es, e);
    assert (es + [e])[..|es|] == es;
  }

  /**
   * What holds after the manifest loop has consumed the entries `done`:
   * no hash failed yet, the map classifies exactly the paths seen, and
   * `remaining` holds the local paths the manifest has not named.
   */
  ghost predicate Consumed(localFiles: seq<Path>, done: seq<Entry>, digest: Path -> Option<HexDigest>,
                           hashMap: map<Path, DumbItem>, remaining: seq<Path>)
  {
    && (forall j :: 0 <= j < |done| ==> !HashFails(localFiles, done, digest, j))
    && hashMap.Keys == PathsOf(done)
    && (forall p :: p in hashMap ==> p in PathsOf(done) && hashMap[p] == RemoteStatus(localFiles, done, digest, p))
    && (forall x :: x in remaining <==> x in localFiles && x !in PathsOf(done))
  }

  lemma ConsumeEntry(localFiles: seq<Path>, done: seq<Entry>, digest: Path -> Option<HexDigest>,
                     hashMap: map<Path, DumbItem>, remaining: seq<Path>, e: Entry,
                     status: DumbItem, remaining': seq<Path>)
    requires Consumed(localFiles, done, digest, hashMap, remaining)
    requires e.path in remaining ==>
      && digest(e.path).Some?
      && status == (if e.hash == digest(e.path).value then Uptodate else Outdated)
      && remaining' == Retain(remaining, e.path)
    requires e.path !in remaining ==> status == Remote && remaining' == remaining
    ensures Consumed(localFiles, done + [e], digest, hashMap[e.path := status], remaining')
  {
    var next := done + [e];
    PathsOfAppend(done, e);
    assert next[..|done|] == done;
    forall j | 0 <= j < |done| ensures !HashFails(localFiles, next, digest, j) {
      HashFailsExtend(localFiles, done, [e], digest, j);
    }
    forall q | q in hashMap && q != e.path
      ensures RemoteStatus(localFiles, next, digest, q) == RemoteStatus(localFiles, done, digest, q)
    {
      StatusExtend(localFiles, done, e, digest, q);
    }
    CountPositive(done, e.path);
    if e.path in remaining {
      forall x ensures x in remaining' <==> x in remaining && x != e.path {
        assert x in remaining' <==> x in multiset(remaining');
        assert x in remaining <==> x in multiset(remaining);
      }
    }
  }

  /** A failing hash after entries that all hashed is the first failure. */
  lemma FirstFailureAt(local: seq<Path>, done: seq<Entry>, e: Entry, rest: seq<Entry>, digest: Path -> Option<HexDigest>)
    requires forall j :: 0 <= j < |done| ==> !HashFails(local, done, digest, j)
    requires e.path in local && e.path !in PathsOf(done) && digest(e.path).None?
    ensures Reconciled(local, done + [e] + rest, digest) == Failure(Unreadable(e.path))
  {
    var es := done + [e] + rest;
    assert es[..|done|] == done && es[|done|] == e;
    assert HashFails(local, es, digest, |done|);
    forall j | 0 <= j < |done| ensures !HashFails(local, es, digest, j) {
      HashFailsExtend(local, done, [e] + rest, digest, j);
      assert done + ([e] + rest) == es;
    }
  }

  /** A hash failing on the first entry naming a local path is the first failure of the whole manifest. */
  lemma FailureIsFirst(localFiles: seq<Path>, lines: seq<string>, i: nat, digest: Path -> Option<HexDigest>,
                       hashMap: map<Path, DumbItem>, remaining: seq<Path>, e: Entry)
    requires i < |lines| && ParseLine(lines[i]) == Some(e)
    requires Consumed(localFiles, ParsedEntries(lines[..i]), digest, hashMap, remaining)
    requires e.path in remaining && digest(e.path).None?
    ensures Reconciled(localFiles, ParsedEntries(lines), digest) == Failure(Unreadable(e.path))
  {
    ParsedEntriesAround(lines, i);
    assert LineEntries(lines[i]) == [e];
    FirstFailureAt(localFiles, ParsedEntries(lines[..i]), e, ParsedEntries(lines[i + 1..]), digest);
  }

  /** After the manifest loop no hash has failed, so the outcome is the classification. */
  lemma MarkLocalCompletes(localFiles: seq<Path>, es: seq<Entry>, digest: Path -> Option<HexDigest>,
                           hashMap: map<Path, DumbItem>, remaining: seq<Path>)
    requires Consumed(localFiles, es, digest, hashMap, remaining)
    ensures Reconciled(localFiles, es, digest) == Success(Expected(localFiles, es, digest))
    ensures forall x :: x in remaining ==> x !in PathsOf(es)
  {
  }

  lemma ClassificationComplete(localFiles: seq<Path>, es: seq<Entry>, digest: Path -> Option<HexDigest>,
                               hashMap: map<Path, DumbItem>, remaining: seq<Path>)
    requires forall x :: x in remaining <==> x in localFiles && x !in PathsOf(es)
    requires hashMap.Keys == PathsOf(es) + Elements(remaining)
    requires forall p :: p in hashMap ==>
      hashMap[p] == if p in PathsOf(es) then RemoteStatus(localFiles, es, digest, p) else Local
    ensures hashMap == Expected(localFiles, es, digest)
  {
  }

  /**
   * One iteration of the manifest loop of `aggregate`: a line with a space
   * names a path; a path still in `local` is removed from it and hashed
   * (Uptodate or Outdated), any other path is Remote; a line without a
   * space changes nothing. Fails when the hash fails.
   */
  method ProcessLine(line: string, localFiles: seq<Path>, ghost done: seq<Entry>, digest: Path -> Option<HexDigest>,
                     hashMap: map<Path, DumbItem>, local: seq<Path>)
    returns (r: Result<(map<Path, DumbItem>, seq<Path>), Error>)
    requires Consumed(localFiles, done, digest, hashMap, local)
    ensures r.Success? ==> Consumed(localFiles, done + LineEntries(line), digest, r.value.0, r.value.1)
    ensures r.Failure? <==>
      ParseLine(line).Some? && ParseLine(line).value.path in local && digest(ParseLine(line).value.path).None?
    ensures r.Failure? ==> r.error == Unreadable(ParseLine(line).value.path)
  {
    var parsed := ParseLine(line);
    if parsed.None? {
      assert done + LineEntries(line) == done;
      return Success((hashMap, local));
    }
    var e := parsed.value;
    var path := e.path;
    var hashMap', local' := hashMap, local;
    if path in local {
      local' := Retain(local, path);
      var localHash := digest(path);
      if localHash.None? {
        return Failure(Unreadable(path));
      }
      if e.hash == localHash.value {
        hashMap' := hashMap[path := Uptodate];
      } else {
        hashMap' := hashMap[path := Outdated];
      }
    } else {
      hashMap' := hashMap[path := Remote];
    }
    ConsumeEntry(localFiles, done, digest, hashMap, local, e, hashMap'[path], local');
    assert LineEntries(line) == [e];
    return Success((hashMap', local'));
  }

  /**
   * The last loop of `aggregate`: every local path the manifest did not
   * name is recorded as Local, which completes the classification.
   */
  method MarkLocal(localFiles: seq<Path>, ghost es: seq<Entry>, digest: Path -> Option<HexDigest>,
                   hashMap: map<Path, DumbItem>, local: seq<Path>)
    returns (m: map<Path, DumbItem>)
    requires Consumed(localFiles, es, digest, hashMap, local)
    ensures m == Expected(localFiles, es, digest)
  {
    m := hashMap;
    for k := 0 to |local|
      invariant m.Keys == PathsOf(es) + Elements(local[..k])
      invariant forall p :: p in m ==>
        m[p] == if p in PathsOf(es) then RemoteStatus(localFiles, es, digest, p) else Local
    {
      assert local[..k + 1] == local[..k] + [local[k]];
      m := m[local[k] := Local];
    }
    assert local[..|local|] == local;
    ClassificationComplete(localFiles, es, digest, m, local);
  }

  /**
   * `aggregate` once the tree is walked: fetches the manifest, classifies
   * each manifest path (removing matched paths from `localFiles` and hashing
   * them), then marks what is left of `localFiles` Local.
   * `fetch` stands for the HTTP GET, `digest` for hashing `target/path`.
   */
  method Aggregate(url: string, localFiles: seq<Path>, fetch: string -> Option<string>,
                   digest: Path -> Option<HexDigest>)
    returns (r: Result<map<Path, DumbItem>, Error>)
    ensures fetch(ManifestUrl(url)).None? ==> r == Failure(FetchFailed(ManifestUrl(url)))
    ensures fetch(ManifestUrl(url)).Some? ==>
      r == Reconciled(localFiles, ParseManifest(fetch(ManifestUrl(url)).value), digest)
  {
    var hashMap: map<Path, DumbItem> := map[];
    var local := localFiles;
    var baseUrl := NormalizeBaseUrl(url);
    var dumbUrl := ResolveRelative(baseUrl, ManifestFileName);
    var res := fetch(dumbUrl);
    if res.None? {
      return Failure(FetchFailed(dumbUrl));
    }
    var lines := Lines(res.value);
    ghost var done: seq<Entry> := [];
    var i := 0;
    while i < |lines|
      invariant 0 <= i <= |lines|
      invariant done == ParsedEntries(lines[..i])
      invariant Consumed(localFiles, done, digest, hashMap, local)
    {
      ParsedEntriesStep(lines, i);
      var step := ProcessLine(lines[i], localFiles, done, digest, hashMap, local);
      if step.Failure? {
        FailureIsFirst(localFiles, lines, i, digest, hashMap, local, ParseLine(lines[i]).value);
        return Failure(step.error);
      }
      hashMap, local := step.value.0, step.value.1;
      done := done + LineEntries(lines[i]);
      i := i + 1;
    }
    assert lines[..i] == lines;
    MarkLocalCompletes(localFiles, done, digest, hashMap, local);
    hashMap := MarkLocal(localFiles, done, digest, hashMap, local);
    return Success(hashMap);
  }

  /** Manifests written by `generate` name every path once. */
  predicate NoDuplicatePaths(es: seq<Entry>) {
    forall i, j :: 0 <= i < j < |es| ==> es[i].path != es[j].path
  }

  lemma {:induction false} UniqueEntry(es: seq<Entry>, i: nat)
    requires NoDuplicatePaths(es) && i < |es|
    ensures es[i].path in PathsOf(es)
    ensures Count(es, es[i].path) == 1 && LastHash(es, es[i].path) == es[i].hash
  {
    var n := |es| - 1;
    var p := es[i].path;
    var front := es[..n];
    assert es == front + [es[n]];
    PathsOfAppend(front, es[n]);
    if i == n {
      assert p !in PathsOf(front);
      CountPositive(front, p);
    } else {
      assert front[i] == es[i];
      UniqueEntry(front, i);
    }
  }

  lemma {:induction false} RepeatedPathCountsTwice(es: seq<Entry>, i: nat, j: nat)
    requires i < j < |es| && es[i].path == es[j].path
    ensures Count(es, es[j].path) >= 2
  {
    var n := |es| - 1;
    var front := es[..n];
    assert front[i] == es[i];
    if j == n {
      CountPositive(front, es[i].path);
    } else {
      assert front[j] == es[j];
      RepeatedPathCountsTwice(front, i, j);
    }
  }

  /**
   * For a manifest naming each path once, `aggregate` fails exactly when a
   * path both local and remote cannot be hashed; otherwise it classifies
   * the union of local and remote paths: local only is Local, remote only
   * is Remote, both is Uptodate when the digests agree and Outdated when not.
   */
  lemma ReconciledClassifies(local: seq<Path>, es: seq<Entry>, digest: Path -> Option<HexDigest>)
    requires NoDuplicatePaths(es)
    ensures Reconciled(local, es, digest).Success? <==>
      forall i :: 0 <= i < |es| && es[i].path in local ==> digest(es[i].path).Some?
    ensures Reconciled(local, es, digest).Success? ==>
      var m := Reconciled(local, es, digest).value;
      && m.Keys == Elements(local) + PathsOf(es)
      && (forall p :: p in local && p !in PathsOf(es) ==> m[p] == Local)
      && (forall i :: 0 <= i < |es| && es[i].path !in local ==> m[es[i].path] == Remote)
      && (forall i :: 0 <= i < |es| && es[i].path in local ==>
            m[es[i].path] == if digest(es[i].path).Some? && digest(es[i].path).value == es[i].hash
                             then Uptodate else Outdated)
  {
    forall i | 0 <= i < |es| ensures es[i].path !in PathsOf(es[..i]) {
    }
    forall i | 0 <= i < |es| ensures Count(es, es[i].path) == 1 && LastHash(es, es[i].path) == es[i].hash {
      UniqueEntry(es, i);
    }
    var first := FirstHashFailure(local, es, digest, 0);
    if first.Some? {
      assert HashFails(local, es, digest, first.value);
    } else {
      forall i | 0 <= i < |es| && es[i].path in local ensures digest(es[i].path).Some? {
        assert !HashFails(local, es, digest, i);
      }
    }
  }

  /**
   * A path the manifest names twice ends up Remote, even when it is local:
   * the first line consumed it from the local list, the later one overwrites.
   */
  lemma RepeatedPathIsRemote(local: seq<Path>, es: seq<Entry>, digest: Path -> Option<HexDigest>, i: nat, j: nat)
    requires i < j < |es| && es[i].path == es[j].path
    requires Reconciled(local, es, digest).Success?
    ensures es[j].path in Reconciled(local, es, digest).value
    ensures Reconciled(local, es, digest).value[es[j].path] == Remote
  {
    RepeatedPathCountsTwice(es, i, j);
  }

  /**
   * A local tree that holds exactly the files a duplicate-free manifest
   * names, each with the recorded digest, reconciles to all Uptodate.
   */
  lemma InSyncTreeIsUptodate(local: seq<Path>, es: seq<Entry>, digest: Path -> Option<HexDigest>)
    requires NoDuplicatePaths(es)
    requires Elements(local) == PathsOf(es)
    requires forall i :: 0 <= i < |es| ==> digest(es[i].path).Some? && digest(es[i].path).value == es[i].hash
    ensures Reconciled(local, es, digest) == Success(map p | p in local :: Uptodate)
  {
    ReconciledClassifies(local, es, digest);
    assert Reconciled(local, es, digest).Success?;
    var m := Reconciled(local, es, digest).value;
    var all := map p | p in local :: Uptodate;
    forall p | p in m ensures m[p] == Uptodate {
      var i :| 0 <= i < |es| && es[i].path == p;
    }
    assert m.Keys == all.Keys;
    assert m == all;
  }

  /**
   * The entries built from the listed files name each path once, and each
   * records the hash the file still has after the manifest is written.
   */
  lemma ListedEntriesInSync(files: seq<Path>, digest: Path -> Option<HexDigest>,
                            digest': Path -> Option<HexDigest>)
    requires AllReadable(WithoutManifest(files), digest)
    requires forall i, j :: 0 <= i < j < |files| ==> files[i] != files[j]
    requires forall p :: p != ManifestFileName ==> digest'(p) == digest(p)
    ensures var listed := WithoutManifest(files);
      var es := ManifestOf(listed, digest);
      && NoDuplicatePaths(es)
      && Elements(listed) == PathsOf(es)
      && forall i :: 0 <= i < |es| ==> digest'(es[i].path).Some? && digest'(es[i].path).value == es[i].hash
  {
    var listed := WithoutManifest(files);
    var es := ManifestOf(listed, digest);
    assert PathsOf(es) == Elements(listed) by {
      forall p | p in listed ensures p in PathsOf(es) {
        var i :| 0 <= i < |listed| && listed[i] == p;
        assert es[i].path == p;
      }
    }
    forall i | 0 <= i < |es|
      ensures digest'(es[i].path).Some? && digest'(es[i].path).value == es[i].hash
    {
      assert es[i].path == listed[i] && listed[i] != ManifestFileName;
    }
    forall i, j | 0 <= i < j < |es| ensures es[i].path != es[j].path {
      assert es[i].path == listed[i] && es[j].path == listed[j];
    }
  }

  /**
   * A manifest built from the walk without the manifest file stays valid
   * after it is written: a tree holding exactly the listed files reconciles
   * to all Uptodate, even under `digest'`, the hashes after the write, which
   * differ from `digest` at most on the manifest file. A second sync has
   * nothing to transfer.
   */
  lemma RegeneratedTreeIsUptodate(files: seq<Path>, digest: Path -> Option<HexDigest>,
                                  digest': Path -> Option<HexDigest>)
    requires AllReadable(WithoutManifest(files), digest)
    requires forall i :: 0 <= i < |files| ==> '\n' !in files[i]
    requires forall i, j :: 0 <= i < j < |files| ==> files[i] != files[j]
    requires forall p :: p != ManifestFileName ==> digest'(p) == digest(p)
    ensures var listed := WithoutManifest(files);
      Reconciled(listed, ParseManifest(Serialize(ManifestOf(listed, digest))), digest')
        == Success(map p | p in listed :: Uptodate)
  {
    var listed := WithoutManifest(files);
    ListedManifestParsesBack(files, digest);
    ListedEntriesInSync(files, digest, digest');
    InSyncTreeIsUptodate(listed, ManifestOf(listed, digest), digest');
  }

  /**
   * As written, `generate` lists every file of its directory, including the
   * manifest of the previous run, then overwrites it. A client holding the
   * whole tree finds the manifest entry Outdated whenever the write changed
   * its hash, on every later sync as well.
   */
  lemma StaleManifestEntryIsOutdated(files: seq<Path>, digest: Path -> Option<HexDigest>,
                                     digest': Path -> Option<HexDigest>)
    requires AllReadable(files, digest) && AllReadable(files, digest')
    requires forall i :: 0 <= i < |files| ==> '\n' !in files[i]
    requires forall i, j :: 0 <= i < j < |files| ==> files[i] != files[j]
    requires ManifestFileName in files
    requires digest'(ManifestFileName) != digest(ManifestFileName)
    ensures var r := Reconciled(files, ParseManifest(Serialize(ManifestOf(files, digest))), digest');
      r.Success? && ManifestFileName in r.value && r.value[ManifestFileName] == Outdated
  {
    var es := ManifestOf(files, digest);
    GeneratedManifestParsesBack(files, digest);
    ReconciledClassifies(files, es, digest');
    var k :| 0 <= k < |files| && files[k] == ManifestFileName;
    assert es[k].path == ManifestFileName && es[k].hash == digest(ManifestFileName).value;
  }
}
