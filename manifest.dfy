/**
 * The `.dumbsync` manifest: one line `<hex digest> <relative path>` per file,
 * written by `generate` and read back by `aggregate`.
 */
module Manifest {
  import opened Types
  import opened Text

  /** Name of the manifest file at the root of a published tree. */
  const ManifestFileName: string := ".dumbsync"

  /** One manifest line: the digest text and the path it belongs to. */
  datatype Entry = Entry(hash: string, path: Path)

  /** The line `generate` writes for one file. */
  function FormatLine(e: Entry): string {
    e.hash + " " + e.path + "\n"
  }

  /**
   * A manifest line split at its first space (`splitn(2, " ")`); a line
   * without a space yields nothing.
   */
  function ParseLine(line: string): (r: Option<Entry>)
    ensures r.Some? <==> ' ' in line
    ensures r.Some? ==> ' ' !in r.value.hash && line == r.value.hash + " " + r.value.path
  {
    if ' ' in line then
      var k := IndexOf(line, ' ');
      assert line == line[..k] + " " + line[k + 1..];
      Some(Entry(line[..k], line[k + 1..]))
    else
      None
  }

  /** A digest without spaces is read back whole, whatever the path holds. */
  lemma ParseFormattedLine(e: Entry)
    requires ' ' !in e.hash
    ensures ParseLine(e.hash + " " + e.path) == Some(e)
  {
    IndexOfAfter(e.hash, ' ', e.path);
    var line := e.hash + " " + e.path;
    assert line[..|e.hash|] == e.hash;
    assert line[|e.hash| + 1..] == e.path;
  }

  /** What one line contributes: its entry, or nothing. */
  function LineEntries(line: string): seq<Entry> {
    match ParseLine(line)
    case Some(e) => [e]
    case None => []
  }

  /** The entries of the lines that contain a space, in line order. */
  function ParsedEntries(lines: seq<string>): seq<Entry> {
    if lines == [] then [] else LineEntries(lines[0]) + ParsedEntries(lines[1..])
  }

  lemma {:induction false} ParsedEntriesAppend(a: seq<string>, b: seq<string>)
    ensures ParsedEntries(a + b) == ParsedEntries(a) + ParsedEntries(b)
  {
    if a != [] {
      assert (a + b)[0] == a[0];
      assert (a + b)[1..] == a[1..] + b;
      ParsedEntriesAppend(a[1..], b);
    } else {
      assert a + b == b;
    }
  }

  lemma ParsedEntriesStep(lines: seq<string>, i: nat)
    requires i < |lines|
    ensures ParsedEntries(lines[..i + 1]) == ParsedEntries(lines[..i]) + LineEntries(lines[i])
  {
    assert lines[..i + 1] == lines[..i] + [lines[i]];
    ParsedEntriesAppend(lines[..i], [lines[i]]);
    assert ParsedEntries([lines[i]]) == LineEntries(lines[i]) + ParsedEntries([]);
  }

  lemma ParsedEntriesAround(lines: seq<string>, i: nat)
    requires i < |lines|
    ensures ParsedEntries(lines) == ParsedEntries(lines[..i]) + LineEntries(lines[i]) + ParsedEntries(lines[i + 1..])
  {
    assert lines == lines[..i + 1] + lines[i + 1..];
    ParsedEntriesAppend(lines[..i + 1], lines[i + 1..]);
    ParsedEntriesStep(lines, i);
  }

  /** The entries of a fetched manifest document. */
  function ParseManifest(doc: string): seq<Entry> {
    ParsedEntries(Lines(doc))
  }

  /** The manifest document for a sequence of entries. */
  function Serialize(es: seq<Entry>): string {
    if es == [] then "" else FormatLine(es[0]) + Serialize(es[1..])
  }

  lemma {:induction false} SerializeAppend(es: seq<Entry>, e: Entry)
    ensures Serialize(es + [e]) == Serialize(es) + FormatLine(e)
  {
    if es == [] {
      assert [e][1..] == [];
    } else {
      assert (es + [e])[1..] == es[1..] + [e];
      SerializeAppend(es[1..], e);
    }
  }

  /** An entry that survives the line format: no space in the digest, no line feed anywhere. */
  predicate Writable(e: Entry) {
    ' ' !in e.hash && '\n' !in e.hash && '\n' !in e.path
  }

  /** One formatted line in front of a document parses to its entry in front of the rest. */
  lemma ParseFormattedFront(e: Entry, rest: string)
    requires Writable(e)
    ensures ParseManifest(FormatLine(e) + rest) == [e] + ParseManifest(rest)
  {
    var line := e.hash + " " + e.path;
    assert FormatLine(e) + rest == line + "\n" + rest;
    LinesCons(line, rest);
    ParseFormattedLine(e);
    var ls := [line] + Lines(rest);
    assert ls[0] == line && ls[1..] == Lines(rest);
  }

  /** Parsing what was serialised gives back the same entries, in order. */
  lemma {:induction false} ParseSerialize(es: seq<Entry>)
    requires forall i :: 0 <= i < |es| ==> Writable(es[i])
    ensures ParseManifest(Serialize(es)) == es
  {
    if es != [] {
      ParseFormattedFront(es[0], Serialize(es[1..]));
      ParseSerialize(es[1..]);
    }
  }

  /** A digest as `to_hex` prints it never holds a space or a line feed. */
  lemma HexDigestIsWritable(h: HexDigest, p: Path)
    requires '\n' !in p
    ensures Writable(Entry(h, p))
  {
  }

  predicate AllReadable(files: seq<Path>, digest: Path -> Option<HexDigest>) {
    forall i :: 0 <= i < |files| ==> digest(files[i]).Some?
  }

  /** The entries `generate` records for `files`, in walk order. */
  function ManifestOf(files: seq<Path>, digest: Path -> Option<HexDigest>): seq<Entry>
    requires AllReadable(files, digest)
  {
    seq(|files|, i requires 0 <= i < |files| => Entry(digest(files[i]).value, files[i]))
  }

  /**
   * The walked files minus the manifest file itself: what a manifest can
   * list without naming a file its own write changes. Keeps walk order.
   */
  function WithoutManifest(files: seq<Path>): (r: seq<Path>)
    ensures forall p :: p in r <==> p in files && p != ManifestFileName
    ensures ManifestFileName !in files ==> r == files
    ensures (forall i, j :: 0 <= i < j < |files| ==> files[i] != files[j]) ==>
              forall i, j :: 0 <= i < j < |r| ==> r[i] != r[j]
  {
    if files == [] then []
    else
      var front := files[..|files| - 1];
      var last := files[|files| - 1];
      assert files == front + [last];
      var rest := WithoutManifest(front);
      assert (forall i, j :: 0 <= i < j < |files| ==> files[i] != files[j]) ==> last !in rest by {
        if forall i, j :: 0 <= i < j < |files| ==> files[i] != files[j] {
          forall i | 0 <= i < |front| ensures front[i] != last {
            assert files[i] != files[|files| - 1];
          }
        }
      }
      if last == ManifestFileName then rest else rest + [last]
  }

  /**
   * `generate`: hashes every regular file in walk order and accumulates the
   * manifest text; the first file that cannot be hashed aborts the build.
   * Returns the text written to `<dir>/.dumbsync`.
   */
  method Generate(files: seq<Path>, digest: Path -> Option<HexDigest>) returns (r: Result<string, Error>)
    ensures r.Success? <==> AllReadable(files, digest)
    ensures r.Success? ==> r.value == Serialize(ManifestOf(files, digest))
    ensures r.Failure? ==>
      exists i :: 0 <= i < |files| && digest(files[i]).None? && r.error == Unreadable(files[i])
        && AllReadable(files[..i], digest)
  {
    var fileContent := "";
    var i := 0;
    while i < |files|
      invariant 0 <= i <= |files|
      invariant AllReadable(files[..i], digest)
      invariant fileContent == Serialize(ManifestOf(files[..i], digest))
    {
      var hash := digest(files[i]);
      if hash.None? {
        return Failure(Unreadable(files[i]));
      }
      var e := Entry(hash.value, files[i]);
      assert ManifestOf(files[..i + 1], digest) == ManifestOf(files[..i], digest) + [e];
      SerializeAppend(ManifestOf(files[..i], digest), e);
      fileContent := fileContent + FormatLine(e);
      i := i + 1;
    }
    assert files[..i] == files;
    return Success(fileContent);
  }

  /** What `generate` writes, `aggregate` reads back entry for entry. */
  lemma GeneratedManifestParsesBack(files: seq<Path>, digest: Path -> Option<HexDigest>)
    requires AllReadable(files, digest)
    requires forall i :: 0 <= i < |files| ==> '\n' !in files[i]
    ensures ParseManifest(Serialize(ManifestOf(files, digest))) == ManifestOf(files, digest)
  {
    var es := ManifestOf(files, digest);
    forall i | 0 <= i < |es| ensures Writable(es[i]) {
      HexDigestIsWritable(digest(files[i]).value, files[i]);
    }
    ParseSerialize(es);
  }

  /** The manifest built from the walk without the manifest file also parses back entry for entry. */
  lemma ListedManifestParsesBack(files: seq<Path>, digest: Path -> Option<HexDigest>)
    requires AllReadable(WithoutManifest(files), digest)
    requires forall i :: 0 <= i < |files| ==> '\n' !in files[i]
    ensures var listed := WithoutManifest(files);
      ParseManifest(Serialize(ManifestOf(listed, digest))) == ManifestOf(listed, digest)
  {
    var listed := WithoutManifest(files);
    forall i | 0 <= i < |listed| ensures '\n' !in listed[i] {
      assert listed[i] in files;
    }
    GeneratedManifestParsesBack(listed, digest);
  }
}
