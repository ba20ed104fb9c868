/**
 * File lookup on a fixed file system: `get_composed_file_metadata` (src/static_files.rs) with
 * `try_metadata_with_html_suffix` (src/fs/meta.rs) and `precompressed_variant` (src/compression_static.rs).
 */
module Lookup {
  import opened Wrappers
  import opened Bytes
  import opened Paths
  import opened Listing
  import opened Text
  import opened Sorting
  import opened Negotiation

  const NOT_FOUND := 404

  const HTML_SUFFIX: seq<byte> := [DOT, 0x68, 0x74, 0x6D, 0x6C]
  const GZ: seq<byte> := [DOT, 0x67, 0x7A]
  const BR: seq<byte> := [DOT, 0x62, 0x72]
  const ZST: seq<byte> := [DOT, 0x7A, 0x73, 0x74]

  type FilePath = seq<Name>

  /** What the lookup passes on about a file; `stamp` stands for its length and date. */
  datatype Metadata = Metadata(isDir: bool, stamp: nat)

  /** Existing paths with their metadata, and the names that are not UTF-8. */
  datatype FileSystem = FileSystem(nodes: map<FilePath, Metadata>, nonUtf8: set<Name>)

  /** A configured index file: usually one plain name, but any path text is taken. */
  datatype IndexFile = IndexFile(absolute: bool, parts: FilePath)

  const INDEX_HTML: Name := [0x69, 0x6E, 0x64, 0x65, 0x78, DOT, 0x68, 0x74, 0x6D, 0x6C]
  const DEFAULT_INDEX_FILES: seq<IndexFile> := [IndexFile(false, [INDEX_HTML])]

  function Indexes(configured: seq<IndexFile>): seq<IndexFile> {
    if configured == [] then DEFAULT_INDEX_FILES else configured
  }

  function Pushed(path: FilePath, index: IndexFile): FilePath {
    if index.absolute then index.parts else path + index.parts
  }

  function Parent(path: FilePath): FilePath {
    if path == [] then [] else path[..|path| - 1]
  }

  function FileName(path: FilePath): Option<Name> {
    if path == [] || path[|path| - 1] == PARENT_DIR then None else Some(path[|path| - 1])
  }

  function WithFileName(path: FilePath, name: Name): FilePath {
    (if FileName(path).Some? then Parent(path) else path) + [name]
  }

  function TryMetadata(fs: FileSystem, path: FilePath): Option<Metadata> {
    if path in fs.nodes then Some(fs.nodes[path]) else None
  }

  class PathBuf {
    var parts: FilePath

    constructor (parts: FilePath)
      ensures this.parts == parts
    {
      this.parts := parts;
    }

    method Push(index: IndexFile)
      modifies this
      ensures parts == Pushed(old(parts), index)
    {
      parts := if index.absolute then index.parts else parts + index.parts;
    }

    method Pop()
      modifies this
      ensures parts == Parent(old(parts))
    {
      if parts != [] {
        parts := parts[..|parts| - 1];
      }
    }

    method SetFileName(name: Name)
      modifies this
      ensures parts == WithFileName(old(parts), name)
    {
      if FileName(parts).Some? {
        Pop();
      }
      parts := parts + [name];
    }
  }

  // ----- Pre-compressed variants -----

  datatype Variant = Variant(path: FilePath, metadata: Metadata, encoding: ContentCoding)

  function Extension(encoding: ContentCoding): Option<seq<byte>> {
    match encoding
    case GZIP => Some(GZ)
    case DEFLATE => Some(GZ)
    case BROTLI => Some(BR)
    case ZSTD => Some(ZST)
    case COMPRESS => None
    case IDENTITY => None
  }

  /** The variant of `path` in one coding: an existing sibling that is not a directory. */
  function VariantIn(fs: FileSystem, path: FilePath, encoding: ContentCoding): Option<Variant> {
    var ext, name := Extension(encoding), FileName(path);
    if ext.None? || name.None? || name.value in fs.nonUtf8 then None
    else
      var sibling := WithFileName(path, name.value + ext.value);
      var meta := TryMetadata(fs, sibling);
      if meta.None? || meta.value.isDir then None else Some(Variant(sibling, meta.value, encoding))
  }

  /** The first variant in the order of the encodings. */
  function VariantOf(fs: FileSystem, path: FilePath, encodings: seq<ContentCoding>): Option<Variant> {
    if encodings == [] then None
    else if VariantIn(fs, path, encodings[0]).Some? then VariantIn(fs, path, encodings[0])
    else VariantOf(fs, path, encodings[1..])
  }

  method PrecompressedVariant(fs: FileSystem, path: FilePath, encodings: seq<ContentCoding>) returns (r: Option<Variant>)
    ensures r == VariantOf(fs, path, encodings)
  {
    for k := 0 to |encodings|
      invariant VariantOf(fs, path, encodings) == VariantOf(fs, path, encodings[k..])
    {
      var encoding := encodings[k];
      assert encodings[k..][1..] == encodings[k + 1..];
      var ext := Extension(encoding);
      if ext.None? {
        continue;
      }
      var name := FileName(path);
      if name.None? || name.value in fs.nonUtf8 {
        continue;
      }
      var sibling := WithFileName(path, name.value + ext.value);
      var meta := TryMetadata(fs, sibling);
      if meta.None? {
        continue;
      }
      if meta.value.isDir {
        continue;
      }
      return Some(Variant(sibling, meta.value, encoding));
    }
    r := None;
  }

  lemma {:induction false} VariantAt(fs: FileSystem, path: FilePath, encodings: seq<ContentCoding>, k: nat)
    requires k <= |encodings| && forall i | 0 <= i < k :: VariantIn(fs, path, encodings[i]).None?
    requires k < |encodings| ==> VariantIn(fs, path, encodings[k]).Some?
    ensures VariantOf(fs, path, encodings) == if k < |encodings| then VariantIn(fs, path, encodings[k]) else None
  {
    if k > 0 {
      VariantAt(fs, path, encodings[1..], k - 1);
    }
  }

  /**
   * The variant served is in the coding of a best item, by (quality, priority), among the request's items whose
   * coding has an existing sibling that is not a directory; there is none exactly when no item has one.
   */
  lemma VariantIsBest(fs: FileSystem, path: FilePath, values: seq<HeaderValue>, parse: QParser)
    ensures var items, r := RequestItems(values, parse), VariantOf(fs, path, SortedEncodings(values, parse));
            var exists' := (m: QualityMeta) => VariantIn(fs, path, CodingOf(m.data)).Some?;
            && (r.None? <==> forall m <- items :: !exists'(m))
            && (r.Some? ==> exists m :: Best(items, exists', m) && r == VariantIn(fs, path, CodingOf(m.data)))
  {
    if values != [] {
      var items := RequestItems(values, parse);
      var exists' := (m: QualityMeta) => VariantIn(fs, path, CodingOf(m.data)).Some?;
      var sorted := StableSort(items, ItemKey);
      var k := FirstSorted(items, exists');
      VariantAt(fs, path, Codings(sorted), k);
      if k < |sorted| {
        assert Best(items, exists', sorted[k]) && CodingOf(sorted[k].data) == Codings(sorted)[k];
      }
    }
  }

  // ----- The `.html` suffix -----

  function HtmlSuffixed(path: FilePath): Option<FilePath> {
    match FileName(path)
    case None => None
    case Some(name) => Some(WithFileName(path, name + HTML_SUFFIX))
  }

  lemma SuffixRestores(path: FilePath)
    requires FileName(path).Some?
    ensures WithFileName(HtmlSuffixed(path).value, FileName(path).value) == path
  {
    var name := FileName(path).value;
    assert |name + HTML_SUFFIX| > 2;
    assert path == Parent(path) + [name];
  }

  /** The path is moved to the suffixed one if that exists, and is back at its old value otherwise. */
  method TryMetadataWithHtmlSuffix(fs: FileSystem, path: PathBuf) returns (meta: Option<Metadata>)
    modifies path
    ensures var html := HtmlSuffixed(old(path.parts));
            if html.Some? && html.value in fs.nodes
            then meta == Some(fs.nodes[html.value]) && path.parts == html.value
            else meta == None && path.parts == old(path.parts)
  {
    var name := FileName(path.parts);
    if name.Some? {
      SuffixRestores(path.parts);
      path.SetFileName(name.value + HTML_SUFFIX);
      meta := TryMetadata(fs, path.parts);
      if meta.Some? {
        return;
      }
      path.SetFileName(name.value);
    }
    meta := None;
  }

  // ----- The search -----

  datatype FileMetadata = FileMetadata(path: FilePath, metadata: Metadata, isDir: bool,
                                       variant: Option<(FilePath, ContentCoding)>)

  /** A place where a directory request may be answered from. */
  datatype Candidate = Compressed(path: FilePath) | Plain(path: FilePath)

  /** What is fixed during one lookup. */
  datatype Request = Request(fs: FileSystem, encodings: seq<ContentCoding>, compressionStatic: bool)

  function PlaceAfter(path: FilePath, index: IndexFile): FilePath {
    Parent(Pushed(path, index))
  }

  function Places(req: Request, path: FilePath, index: IndexFile): seq<Candidate> {
    (if req.compressionStatic then [Compressed(Pushed(path, index))] else [])
    + [Plain(Pushed(path, index))]
    + (var html := HtmlSuffixed(PlaceAfter(path, index)); if html.Some? then [Plain(html.value)] else [])
  }

  /** All places in search order. */
  function Candidates(req: Request, path: FilePath, indexes: seq<IndexFile>): seq<Candidate>
    decreases |indexes|
  {
    if indexes == [] then []
    else Places(req, path, indexes[0]) + Candidates(req, PlaceAfter(path, indexes[0]), indexes[1..])
  }

  /** Where the search stands after trying all index files in vain. */
  function PlaceAfterAll(path: FilePath, indexes: seq<IndexFile>): FilePath
    decreases |indexes|
  {
    if indexes == [] then path else PlaceAfterAll(PlaceAfter(path, indexes[0]), indexes[1..])
  }

  predicate Hits(req: Request, c: Candidate) {
    match c
    case Compressed(p) => VariantOf(req.fs, p, req.encodings).Some?
    case Plain(p) => p in req.fs.nodes
  }

  /** `c` is the first candidate that hits. */
  ghost predicate FirstHit(req: Request, cs: seq<Candidate>, c: Candidate) {
    exists k :: 0 <= k < |cs| && cs[k] == c && Hits(req, c) && forall i | 0 <= i < k :: !Hits(req, cs[i])
  }

  ghost predicate AllMiss(req: Request, cs: seq<Candidate>) {
    forall c <- cs :: !Hits(req, c)
  }

  function FinalVariant(req: Request, path: FilePath): Option<(FilePath, ContentCoding)> {
    if req.compressionStatic then
      var v := VariantOf(req.fs, path, req.encodings);
      if v.Some? then Some((v.value.path, v.value.encoding)) else None
    else None
  }

  /** The answer from the first place that hits. */
  function AnswerFrom(req: Request, c: Candidate): FileMetadata
    requires Hits(req, c)
  {
    match c
    case Compressed(p) =>
      var v := VariantOf(req.fs, p, req.encodings).value;
      FileMetadata(p, v.metadata, false, Some((v.path, v.encoding)))
    case Plain(p) => FileMetadata(p, req.fs.nodes[p], true, FinalVariant(req, p))
  }

  lemma MissThenFirst(req: Request, a: seq<Candidate>, b: seq<Candidate>, c: Candidate)
    requires AllMiss(req, a) && FirstHit(req, b, c)
    ensures FirstHit(req, a + b, c)
  {
    var k :| 0 <= k < |b| && b[k] == c && Hits(req, c) && forall i | 0 <= i < k :: !Hits(req, b[i]);
    assert (a + b)[|a| + k] == c;
    forall i | 0 <= i < |a| + k
      ensures !Hits(req, (a + b)[i])
    {
      if i < |a| {
        assert a[i] in a;
      }
    }
  }

  lemma FirstThenAny(req: Request, a: seq<Candidate>, b: seq<Candidate>, c: Candidate)
    requires FirstHit(req, a, c)
    ensures FirstHit(req, a + b, c)
  {
    var k :| 0 <= k < |a| && a[k] == c && Hits(req, c) && forall i | 0 <= i < k :: !Hits(req, a[i]);
    assert (a + b)[k] == c;
    assert forall i | 0 <= i < k :: (a + b)[i] == a[i];
  }

  /** One index file's three places, and the path the loop goes on with if all miss. */
  method TryIndex(req: Request, path: PathBuf, index: IndexFile) returns (r: Option<FileMetadata>)
    modifies path
    ensures var places := Places(req, old(path.parts), index);
            if r.Some?
            then exists c :: FirstHit(req, places, c) && r.value == AnswerFrom(req, c) && path.parts == c.path
            else AllMiss(req, places) && path.parts == PlaceAfter(old(path.parts), index)
  {
    hide VariantOf, HtmlSuffixed, WithFileName;
    ghost var places := Places(req, path.parts, index);
    path.Push(index);
    if req.compressionStatic {
      var p := PrecompressedVariant(req.fs, path.parts, req.encodings);
      if p.Some? {
        assert FirstHit(req, places, places[0]);
        return Some(FileMetadata(path.parts, p.value.metadata, false, Some((p.value.path, p.value.encoding))));
      }
    }
    var meta := TryMetadata(req.fs, path.parts);
    if meta.Some? {
      ghost var k := if req.compressionStatic then 1 else 0;
      assert FirstHit(req, places, places[k]);
      var variant := LastVariant(req, path.parts);
      return Some(FileMetadata(path.parts, meta.value, true, variant));
    }
    path.Pop();
    meta := TryMetadataWithHtmlSuffix(req.fs, path);
    if meta.Some? {
      assert FirstHit(req, places, places[|places| - 1]);
      var variant := LastVariant(req, path.parts);
      return Some(FileMetadata(path.parts, meta.value, true, variant));
    }
    r := None;
  }

  method LastVariant(req: Request, path: FilePath) returns (r: Option<(FilePath, ContentCoding)>)
    ensures r == FinalVariant(req, path)
  {
    r := None;
    if req.compressionStatic {
      var v := PrecompressedVariant(req.fs, path, req.encodings);
      if v.Some? {
        r := Some((v.value.path, v.value.encoding));
      }
    }
  }

  /** The answer for a directory: from the first place that hits, else with the last index file appended. */
  ghost predicate DirectoryAnswer(req: Request, dir: FilePath, meta: Metadata, indexes: seq<IndexFile>, r: FileMetadata) {
    var places := Candidates(req, dir, indexes);
    || (exists c :: FirstHit(req, places, c) && r == AnswerFrom(req, c))
    || (indexes != [] && AllMiss(req, places)
        && var last := Pushed(PlaceAfterAll(dir, indexes), indexes[|indexes| - 1]);
           r == FileMetadata(last, meta, true, FinalVariant(req, last)))
  }

  lemma StepKeeps(req: Request, tried: seq<Candidate>, here: FilePath, indexes: seq<IndexFile>, places: seq<Candidate>)
    requires indexes != [] && AllMiss(req, tried) && places == tried + Candidates(req, here, indexes)
    ensures var next := Places(req, here, indexes[0]);
            && places == tried + next + Candidates(req, PlaceAfter(here, indexes[0]), indexes[1..])
            && forall c | FirstHit(req, next, c) :: FirstHit(req, places, c)
  {
    var next := Places(req, here, indexes[0]);
    var rest := Candidates(req, PlaceAfter(here, indexes[0]), indexes[1..]);
    assert tried + (next + rest) == tried + next + rest;
    forall c | FirstHit(req, next, c)
      ensures FirstHit(req, places, c)
    {
      MissThenFirst(req, tried, next, c);
      FirstThenAny(req, tried + next, rest, c);
    }
  }

  method SearchDirectory(req: Request, path: PathBuf, metadata: Metadata, configured: seq<IndexFile>) returns (r: FileMetadata)
    modifies path
    ensures path.parts == r.path
    ensures DirectoryAnswer(req, old(path.parts), metadata, Indexes(configured), r)
  {
    var indexFiles := configured;
    if indexFiles == [] {
      indexFiles := DEFAULT_INDEX_FILES;
    }
    ghost var start, places := path.parts, Candidates(req, path.parts, indexFiles);
    ghost var tried: seq<Candidate> := [];
    for k := 0 to |indexFiles|
      invariant AllMiss(req, tried)
      invariant places == tried + Candidates(req, path.parts, indexFiles[k..])
      invariant PlaceAfterAll(start, indexFiles) == PlaceAfterAll(path.parts, indexFiles[k..])
    {
      ghost var here := path.parts;
      assert indexFiles[k..][1..] == indexFiles[k + 1..];
      StepKeeps(req, tried, here, indexFiles[k..], places);
      var hit := TryIndex(req, path, indexFiles[k]);
      if hit.Some? {
        return hit.value;
      }
      tried := tried + Places(req, here, indexFiles[k]);
    }
    path.Push(indexFiles[|indexFiles| - 1]);
    var variant := LastVariant(req, path.parts);
    r := FileMetadata(path.parts, metadata, true, variant);
  }

  /** What the lookup answers, for every path and every list of index files. */
  ghost predicate LookupAnswer(req: Request, start: FilePath, configured: seq<IndexFile>, r: Result<FileMetadata, nat>) {
    var meta, html := TryMetadata(req.fs, start), HtmlSuffixed(start);
    if meta.Some? && meta.value.isDir then
      r.Ok? && DirectoryAnswer(req, start, meta.value, Indexes(configured), r.value)
    else if meta.Some? then
      r == Ok(FileMetadata(start, meta.value, false, FinalVariant(req, start)))
    else if req.compressionStatic && VariantOf(req.fs, start, req.encodings).Some? then
      r == Ok(AnswerFrom(req, Compressed(start)))
    else if html.Some? && html.value in req.fs.nodes then
      r == Ok(FileMetadata(html.value, req.fs.nodes[html.value], false, None))
    else r == Err(NOT_FOUND)
  }

  /**
   * The whole lookup. A directory is answered from the first place that hits, else with the last index file
   * appended; a missing path from its variant, else from its `.html` sibling; the path ends where the answer is.
   */
  method GetComposedFileMetadata(req: Request, path: PathBuf, configured: seq<IndexFile>)
    returns (r: Result<FileMetadata, nat>)
    modifies path
    ensures path.parts == if r.Ok? then r.value.path else old(path.parts)
    ensures LookupAnswer(req, old(path.parts), configured, r) && (r.Err? ==> r.error == 404)
  {
    var found := TryMetadata(req.fs, path.parts);
    if found.Some? {
      if found.value.isDir {
        var answer := SearchDirectory(req, path, found.value, configured);
        return Ok(answer);
      }
      var variant := LastVariant(req, path.parts);
      return Ok(FileMetadata(path.parts, found.value, false, variant));
    }
    if req.compressionStatic {
      var p := PrecompressedVariant(req.fs, path.parts, req.encodings);
      if p.Some? {
        return Ok(FileMetadata(path.parts, p.value.metadata, false, Some((p.value.path, p.value.encoding))));
      }
    }
    var newMeta := TryMetadataWithHtmlSuffix(req.fs, path);
    if newMeta.Some? {
      return Ok(FileMetadata(path.parts, newMeta.value, false, None));
    }
    if req.compressionStatic {
      var p := PrecompressedVariant(req.fs, path.parts, req.encodings);
      if p.Some? {
        // the path is back at the one already checked
        assert false;
      }
    }
    return Err(NOT_FOUND);
  }

  // ----- Properties of the search -----

  predicate SingleName(index: IndexFile) {
    !index.absolute && |index.parts| == 1
  }

  /** An index file tried in vain leaves the path as it was, exactly for these. */
  lemma IterationRestoresIff(path: FilePath, index: IndexFile)
    ensures PlaceAfter(path, index) == path <==>
            || SingleName(index)
            || (path == [] && index.parts == [])
            || (index.absolute && Parent(index.parts) == path)
  {
    if !index.absolute && index.parts != [] {
      assert PlaceAfter(path, index) == path + Parent(index.parts);
      assert |PlaceAfter(path, index)| == |path| + |index.parts| - 1;
    }
  }

  /** Index files that name more than one component do not: the rest of the search is elsewhere. */
  lemma IterationMovesOn(dir: FilePath, sub: Name, file: Name)
    ensures PlaceAfter(dir, IndexFile(false, [sub, file])) == dir + [sub] != dir
  {
    assert (dir + [sub, file])[..|dir| + 1] == dir + [sub];
  }

  /** With single-name index files every search place is in the directory or the directory's `.html` sibling. */
  lemma {:induction false} SearchStaysInPlace(req: Request, dir: FilePath, indexes: seq<IndexFile>)
    requires forall index <- indexes :: SingleName(index)
    ensures PlaceAfterAll(dir, indexes) == dir
    ensures forall c <- Candidates(req, dir, indexes) ::
              (exists index <- indexes :: c.path == dir + index.parts) || Some(c.path) == HtmlSuffixed(dir)
  {
    if indexes != [] {
      IterationRestoresIff(dir, indexes[0]);
      SearchStaysInPlace(req, dir, indexes[1..]);
      assert indexes[0] in indexes;
      assert forall index <- indexes[1..] :: index in indexes;
    }
  }

  lemma {:induction false} PlacesAreCandidates(req: Request, dir: FilePath, indexes: seq<IndexFile>, k: nat)
    requires (forall index <- indexes :: SingleName(index)) && k < |indexes|
    ensures forall c <- Places(req, dir, indexes[k]) :: c in Candidates(req, dir, indexes)
  {
    IterationRestoresIff(dir, indexes[0]);
    if k > 0 {
      PlacesAreCandidates(req, dir, indexes[1..], k - 1);
    }
  }

  /** When no index file is found, the index file appended in the end has no variant either. */
  lemma AppendedIndexHasNoVariant(req: Request, dir: FilePath, indexes: seq<IndexFile>)
    requires indexes != [] && forall index <- indexes :: SingleName(index)
    requires AllMiss(req, Candidates(req, dir, indexes))
    ensures var last := Pushed(PlaceAfterAll(dir, indexes), indexes[|indexes| - 1]);
            last !in req.fs.nodes && FinalVariant(req, last) == None
  {
    SearchStaysInPlace(req, dir, indexes);
    var k := |indexes| - 1;
    PlacesAreCandidates(req, dir, indexes, k);
    var places := Places(req, dir, indexes[k]);
    assert Plain(Pushed(dir, indexes[k])) in places;
    if req.compressionStatic {
      assert Compressed(Pushed(dir, indexes[k])) in places;
    }
  }

  // ----- Whose metadata -----

  lemma {:induction false} VariantIsNode(fs: FileSystem, path: FilePath, encodings: seq<ContentCoding>)
    ensures var v := VariantOf(fs, path, encodings);
            v.Some? ==> v.value.path in fs.nodes && v.value.metadata == fs.nodes[v.value.path]
  {
    if encodings != [] && VariantIn(fs, path, encodings[0]).None? {
      VariantIsNode(fs, path, encodings[1..]);
    }
  }

  lemma FirstHitIsUnique(req: Request, cs: seq<Candidate>, c: Candidate, d: Candidate)
    requires FirstHit(req, cs, c) && FirstHit(req, cs, d)
    ensures c == d && Hits(req, c) && !AllMiss(req, cs)
  {
    var i :| 0 <= i < |cs| && cs[i] == c && Hits(req, c) && forall j | 0 <= j < i :: !Hits(req, cs[j]);
    var k :| 0 <= k < |cs| && cs[k] == d && Hits(req, d) && forall j | 0 <= j < k :: !Hits(req, cs[j]);
    assert cs[i] in cs;
    assert i == k;
  }

  lemma OnlyFirstHit(req: Request, cs: seq<Candidate>, c: Candidate)
    requires FirstHit(req, cs, c)
    ensures forall d | FirstHit(req, cs, d) :: d == c
  {
    forall d | FirstHit(req, cs, d)
      ensures d == c
    {
      FirstHitIsUnique(req, cs, c, d);
    }
  }

  lemma NoFirstHit(req: Request, cs: seq<Candidate>)
    requires AllMiss(req, cs)
    ensures forall c :: !FirstHit(req, cs, c)
  {
    forall c | FirstHit(req, cs, c)
      ensures false
    {
      FirstHitIsUnique(req, cs, c, c);
    }
  }

  lemma CompressedIfStatic(req: Request, dir: FilePath, indexes: seq<IndexFile>, c: Candidate)
    requires FirstHit(req, Candidates(req, dir, indexes), c)
    ensures Hits(req, c) && (c.Compressed? ==> req.compressionStatic)
  {
    NoVariantPlaces(req, dir, indexes);
  }

  lemma {:induction false} NoVariantPlaces(req: Request, dir: FilePath, indexes: seq<IndexFile>)
    ensures forall c <- Candidates(req, dir, indexes) :: c.Compressed? ==> req.compressionStatic
    decreases |indexes|
  {
    if indexes != [] {
      NoVariantPlaces(req, PlaceAfter(dir, indexes[0]), indexes[1..]);
    }
  }

  /** The place a directory is answered from, if any hits. */
  lemma DirectoryHit(req: Request, dir: FilePath, configured: seq<IndexFile>, plain: FileMetadata) returns (c: Candidate)
    requires dir in req.fs.nodes && req.fs.nodes[dir].isDir && LookupAnswer(req, dir, configured, Ok(plain))
    requires !AllMiss(req, Candidates(req, dir, Indexes(configured)))
    ensures FirstHit(req, Candidates(req, dir, Indexes(configured)), c)
    ensures Hits(req, c) && plain == AnswerFrom(req, c) && (c.Compressed? ==> req.compressionStatic)
  {
    hide Candidates, VariantOf, FinalVariant, AllMiss;
    c :| FirstHit(req, Candidates(req, dir, Indexes(configured)), c) && plain == AnswerFrom(req, c);
    CompressedIfStatic(req, dir, Indexes(configured), c);
  }

  /** The request is answered from a variant directly: of a missing path, or as a directory's first hit. */
  ghost predicate FromVariant(req: Request, start: FilePath, configured: seq<IndexFile>) {
    || start !in req.fs.nodes
    || (req.fs.nodes[start].isDir
        && exists c :: FirstHit(req, Candidates(req, start, Indexes(configured)), c) && c.Compressed?)
  }

  /** The path whose metadata stands for an existing path: a directory for which nothing hits lends its own. */
  ghost function Original(req: Request, start: FilePath, configured: seq<IndexFile>, answered: FilePath): FilePath
    requires start in req.fs.nodes
  {
    if req.fs.nodes[start].isDir && AllMiss(req, Candidates(req, start, Indexes(configured))) then start else answered
  }

  /**
   * Whose metadata accompanies a pre-compressed variant: the variant's if the path asked for does not exist or a
   * variant is the directory's first hit; otherwise the uncompressed file's, which is the variant's only if the
   * two happen to agree.
   */
  lemma MetadataIsVariantsIff(req: Request, start: FilePath, configured: seq<IndexFile>, r: FileMetadata)
    requires LookupAnswer(req, start, configured, Ok(r)) && r.variant.Some?
    ensures var nodes, variant := req.fs.nodes, r.variant.value.0;
            && variant in nodes
            && (!FromVariant(req, start, configured) ==>
                  && Original(req, start, configured, r.path) in nodes
                  && r.metadata == nodes[Original(req, start, configured, r.path)])
            && (r.metadata == nodes[variant] <==>
                  || FromVariant(req, start, configured)
                  || nodes[Original(req, start, configured, r.path)] == nodes[variant])
  {
    if start in req.fs.nodes && req.fs.nodes[start].isDir {
      var places := Candidates(req, start, Indexes(configured));
      if AllMiss(req, places) {
        NoFirstHit(req, places);
        VariantOfPath(req, r.path);
        hide VariantOf, Candidates, FirstHit, AllMiss;
      } else {
        var c := DirectoryHit(req, start, configured, r);
        OnlyFirstHit(req, places, c);
        hide *;
        DirectoryMetadata(req, start, configured, r, c);
      }
    } else {
      hide VariantOf, DirectoryAnswer;
      VariantIsNode(req.fs, start, req.encodings);
    }
  }

  lemma VariantOfPath(req: Request, path: FilePath)
    ensures FinalVariant(req, path).Some? ==> FinalVariant(req, path).value.0 in req.fs.nodes
  {
    hide VariantOf;
    VariantIsNode(req.fs, path, req.encodings);
  }

  lemma DirectoryMetadata(req: Request, dir: FilePath, configured: seq<IndexFile>, r: FileMetadata, c: Candidate)
    requires dir in req.fs.nodes && req.fs.nodes[dir].isDir && Hits(req, c) && r == AnswerFrom(req, c) && r.variant.Some?
    requires FirstHit(req, Candidates(req, dir, Indexes(configured)), c)
    requires forall d | FirstHit(req, Candidates(req, dir, Indexes(configured)), d) :: d == c
    requires !AllMiss(req, Candidates(req, dir, Indexes(configured)))
    ensures r.variant.value.0 in req.fs.nodes && Original(req, dir, configured, r.path) == r.path
    ensures FromVariant(req, dir, configured) <==> c.Compressed?
    ensures c.Compressed? ==> r.metadata == req.fs.nodes[r.variant.value.0]
    ensures c.Plain? ==> r.path in req.fs.nodes && r.metadata == req.fs.nodes[r.path]
  {
    hide VariantOf, Candidates, FirstHit, AllMiss;
    VariantIsNode(req.fs, c.path, req.encodings);
  }

  /** A file next to its own variant: the answer names the variant, and carries the metadata of the file. */
  lemma MetadataDeparts(name: Name, file: Metadata, variant: Metadata)
    requires name != PARENT_DIR && !file.isDir && !variant.isDir
    ensures var fs := FileSystem(map[[name + GZ] := variant, [name] := file], {});
            LookupAnswer(Request(fs, [GZIP], true), [name], [], Ok(FileMetadata([name], file, false, Some(([name + GZ], GZIP)))))
  {
    var fs := FileSystem(map[[name + GZ] := variant, [name] := file], {});
    assert |name + GZ| != |name|;
    assert WithFileName([name], name + GZ) == [name + GZ];
    assert [name + GZ] != [name] by { assert [name + GZ][0] != [name][0]; }
    assert VariantIn(fs, [name], GZIP) == Some(Variant([name + GZ], variant, GZIP));
  }

  /** A directory with an index file and its variant: the answer names the variant and carries its metadata. */
  lemma DirectoryTakesVariants(dir: Name, page: Metadata, variant: Metadata)
    requires !page.isDir && !variant.isDir
    ensures var gz := [dir, INDEX_HTML + GZ];
            var fs := FileSystem(map[gz := variant, [dir, INDEX_HTML] := page, [dir] := Metadata(true, 0)], {});
            LookupAnswer(Request(fs, [GZIP], true), [dir], [],
                         Ok(FileMetadata([dir, INDEX_HTML], variant, false, Some((gz, GZIP)))))
  {
    var gz, index := [dir, INDEX_HTML + GZ], [dir, INDEX_HTML];
    var fs := FileSystem(map[gz := variant, index := page, [dir] := Metadata(true, 0)], {});
    var req := Request(fs, [GZIP], true);
    assert |INDEX_HTML + GZ| != |INDEX_HTML|;
    assert gz[1] != index[1];
    assert INDEX_HTML != PARENT_DIR by { assert |INDEX_HTML| == 10; }
    assert Parent(index) == [dir] && WithFileName(index, INDEX_HTML + GZ) == gz;
    assert VariantIn(fs, index, GZIP) == Some(Variant(gz, variant, GZIP));
    assert Pushed([dir], DEFAULT_INDEX_FILES[0]) == index;
    var places := Candidates(req, [dir], DEFAULT_INDEX_FILES);
    assert places[0] == Compressed(index);
    assert FirstHit(req, places, Compressed(index));
  }

  // ----- From the lookup to the reply -----

  /** The path that must resolve before an answer is served. */
  function Canonical(r: FileMetadata): FilePath {
    if r.isDir then Parent(r.path) else r.path
  }

  predicate Resolves(fs: FileSystem, r: FileMetadata) {
    Canonical(r) in fs.nodes
  }

  /**
   * A missing path is served exactly from its `.html` sibling, if it has no variant. An answer from its variant is
   * never served, since the path itself does not resolve; it even hides the sibling.
   */
  lemma MissingPathIsServedIff(req: Request, start: FilePath, configured: seq<IndexFile>, r: Result<FileMetadata, nat>)
    requires LookupAnswer(req, start, configured, r) && start !in req.fs.nodes
    ensures (r.Ok? && Resolves(req.fs, r.value))
       <==> !(req.compressionStatic && VariantOf(req.fs, start, req.encodings).Some?)
            && HtmlSuffixed(start).Some? && HtmlSuffixed(start).value in req.fs.nodes
    ensures r.Ok? && Resolves(req.fs, r.value) ==> r.value.variant == None && r.value.path == HtmlSuffixed(start).value
  {
    hide VariantOf, HtmlSuffixed;
  }

  /** The page that stands for a directory when the cache is on. */
  function IndexPage(dir: FilePath): FilePath {
    dir + [INDEX_HTML]
  }

  /** The place is the index page, or a plain page beside a missing one that is found as its suffixed name. */
  predicate StandsFor(req: Request, dir: FilePath, c: Candidate) {
    || c.path == IndexPage(dir)
    || (c == Plain(dir + [INDEX_HTML + HTML_SUFFIX]) && FinalVariant(req, c.path) == None
        && IndexPage(dir) !in req.fs.nodes && FinalVariant(req, IndexPage(dir)) == None)
  }

  /**
   * With the cache on, a request for a directory that ends in a slash is looked up as its `index.html`. The answer
   * is the same file with the same variant exactly when that page is the directory's first hit; the one exception is
   * a page named `index.html.html`, which is then taken for the suffixed page.
   */
  lemma CachedIndexAgreesIff(req: Request, dir: FilePath, configured: seq<IndexFile>, cached: Result<FileMetadata, nat>,
                             plain: FileMetadata)
    requires dir in req.fs.nodes && req.fs.nodes[dir].isDir && forall index <- configured :: SingleName(index)
    requires IndexPage(dir) in req.fs.nodes ==> !req.fs.nodes[IndexPage(dir)].isDir
    requires LookupAnswer(req, IndexPage(dir), configured, cached) && LookupAnswer(req, dir, configured, Ok(plain))
    ensures cached.Ok? && cached.value.path == plain.path && cached.value.variant == plain.variant
       <==> exists c :: FirstHit(req, Candidates(req, dir, Indexes(configured)), c) && StandsFor(req, dir, c)
  {
    var indexes := Indexes(configured);
    var places := Candidates(req, dir, indexes);
    assert forall index <- indexes :: SingleName(index);
    CachedAnswer(req, dir, configured, cached);
    if AllMiss(req, places) {
      hide *;
      NothingAgrees(req, dir, configured, cached, plain);
    } else {
      hide *;
      var c := DirectoryHit(req, dir, configured, plain);
      SameAnswerIff(req, dir, cached, plain, c);
      OnlyFirstHit(req, places, c);
    }
  }

  /** How the index page is answered when it is asked for itself. */
  ghost predicate PageAnswer(req: Request, dir: FilePath, cached: Result<FileMetadata, nat>) {
    var page, suffixed := IndexPage(dir), dir + [INDEX_HTML + HTML_SUFFIX];
    if page in req.fs.nodes || FinalVariant(req, page).Some? then
      cached.Ok? && cached.value.path == page && cached.value.variant == FinalVariant(req, page)
    else if suffixed in req.fs.nodes then
      cached.Ok? && cached.value.path == suffixed && cached.value.variant == None
    else cached.Err?
  }

  lemma CachedAnswer(req: Request, dir: FilePath, configured: seq<IndexFile>, cached: Result<FileMetadata, nat>)
    requires IndexPage(dir) in req.fs.nodes ==> !req.fs.nodes[IndexPage(dir)].isDir
    requires LookupAnswer(req, IndexPage(dir), configured, cached)
    ensures PageAnswer(req, dir, cached)
  {
    hide VariantOf, DirectoryAnswer, HtmlSuffixed;
    PageName(dir);
  }

  lemma SameAnswerIff(req: Request, dir: FilePath, cached: Result<FileMetadata, nat>, plain: FileMetadata, c: Candidate)
    requires PageAnswer(req, dir, cached) && Hits(req, c) && plain == AnswerFrom(req, c)
    requires c.Compressed? ==> req.compressionStatic
    ensures cached.Ok? && cached.value.path == plain.path && cached.value.variant == plain.variant <==> StandsFor(req, dir, c)
  {
    hide VariantOf;
    PageName(dir);
  }

  lemma NothingAgrees(req: Request, dir: FilePath, configured: seq<IndexFile>, cached: Result<FileMetadata, nat>,
                      plain: FileMetadata)
    requires PageAnswer(req, dir, cached)
    requires dir in req.fs.nodes && req.fs.nodes[dir].isDir && LookupAnswer(req, dir, configured, Ok(plain))
    requires forall index <- configured :: SingleName(index)
    requires AllMiss(req, Candidates(req, dir, Indexes(configured)))
    ensures forall c :: !FirstHit(req, Candidates(req, dir, Indexes(configured)), c)
    ensures !(cached.Ok? && cached.value.path == plain.path && cached.value.variant == plain.variant)
  {
    var indexes := Indexes(configured);
    var places := Candidates(req, dir, indexes);
    assert forall index <- indexes :: SingleName(index);
    AppendedIndexHasNoVariant(req, dir, indexes);
    NoFirstHit(req, places);
    hide VariantOf, Candidates, AllMiss, FirstHit;
    assert plain.path !in req.fs.nodes && plain.variant == None;
  }

  lemma PageName(dir: FilePath)
    ensures HtmlSuffixed(IndexPage(dir)) == Some(dir + [INDEX_HTML + HTML_SUFFIX])
    ensures dir + [INDEX_HTML + HTML_SUFFIX] != IndexPage(dir)
  {
    assert |INDEX_HTML| == 10 && |INDEX_HTML + HTML_SUFFIX| == 15;
    assert (dir + [INDEX_HTML + HTML_SUFFIX])[|dir|] != IndexPage(dir)[|dir|];
    assert Parent(IndexPage(dir)) == dir;
  }

  /** A directory answered from a plain index file carries that file's metadata and has no variant. */
  lemma PlainIndexHasNoVariant(req: Request, dir: FilePath, index: IndexFile)
    requires FirstHit(req, Places(req, dir, index), Plain(Pushed(dir, index)))
    ensures AnswerFrom(req, Plain(Pushed(dir, index)))
         == FileMetadata(Pushed(dir, index), req.fs.nodes[Pushed(dir, index)], true, None)
  {
    var places, c := Places(req, dir, index), Plain(Pushed(dir, index));
    var k :| 0 <= k < |places| && places[k] == c && Hits(req, c) && forall i | 0 <= i < k :: !Hits(req, places[i]);
    if req.compressionStatic {
      assert places[0] == Compressed(Pushed(dir, index));
    }
  }

  /**
   * From a listing to the file: for a request path that names a directory, following the link printed for a
   * file of that directory and looking the new request up serves that very file, with its own metadata.
   */
  lemma ListedFileIsServed(req: Request, base: FilePath, p: seq<byte>, name: Name, configured: seq<IndexFile>,
                           r: Result<FileMetadata, nat>)
    requires RequestPath(p) && PlainName(name) && !SchemeLike(p) && !ClimbsOverName(p)
    requires var file := base + Route(p) + [name]; file in req.fs.nodes && !req.fs.nodes[file].isDir
    requires var target := Resolve(p, Link(p, name, FileType));
             target.Some? ==> LookupAnswer(req, base + Route(target.value), configured, r)
    ensures var file := base + Route(p) + [name];
            r == Ok(FileMetadata(file, req.fs.nodes[file], false, FinalVariant(req, file)))
  {
    LinkRoundTrip(p, name, FileType);
    assert base + (Route(p) + [name]) == base + Route(p) + [name];
  }

  // ----- The answers, told by the file system alone -----

  /** The suffixed page beside a path: its last name, unless it has none, with `.html` added. */
  function HtmlSibling(path: FilePath): Option<FilePath> {
    if path == [] || path[|path| - 1] == [0x2E, 0x2E] then None
    else Some(path[..|path| - 1] + [path[|path| - 1] + [0x2E, 0x68, 0x74, 0x6D, 0x6C]])
  }

  lemma SuffixedIsSibling(path: FilePath)
    ensures HtmlSuffixed(path) == HtmlSibling(path)
  {
  }

  /** The file name ending of a coding: `.gz`, `.br` or `.zst`. */
  function Ending(encoding: ContentCoding): Option<seq<byte>> {
    if encoding == GZIP || encoding == DEFLATE then Some([0x2E, 0x67, 0x7A])
    else if encoding == BROTLI then Some([0x2E, 0x62, 0x72])
    else if encoding == ZSTD then Some([0x2E, 0x7A, 0x73, 0x74])
    else None
  }

  /** A file has a variant in a coding exactly when a file stands beside it that has its name with the coding's ending. */
  lemma VariantInIff(fs: FileSystem, dir: FilePath, name: Name, encoding: ContentCoding)
    requires name != [0x2E, 0x2E]
    ensures var v, ending := VariantIn(fs, dir + [name], encoding), Ending(encoding);
            && (v.Some? <==> && ending.Some? && name !in fs.nonUtf8
                             && dir + [name + ending.value] in fs.nodes && !fs.nodes[dir + [name + ending.value]].isDir)
            && (v.Some? ==> v.value == Variant(dir + [name + ending.value], fs.nodes[dir + [name + ending.value]], encoding))
  {
    assert Parent(dir + [name]) == dir && FileName(dir + [name]) == Some(name);
  }

  /** Without static compression no answer has a variant. */
  lemma NoVariantUnlessStatic(req: Request, start: FilePath, configured: seq<IndexFile>, r: FileMetadata)
    requires LookupAnswer(req, start, configured, Ok(r)) && !req.compressionStatic
    ensures r.variant == None
  {
    if start in req.fs.nodes && req.fs.nodes[start].isDir && !AllMiss(req, Candidates(req, start, Indexes(configured))) {
      var c := DirectoryHit(req, start, configured, r);
    }
  }

  /** Without configured index files the lookup looks for `index.html`. */
  lemma DefaultIsIndexHtml(req: Request, start: FilePath, r: Result<FileMetadata, nat>)
    ensures var index: Name := [0x69, 0x6E, 0x64, 0x65, 0x78, 0x2E, 0x68, 0x74, 0x6D, 0x6C];
            LookupAnswer(req, start, [], r) <==> LookupAnswer(req, start, [IndexFile(false, [index])], r)
  {
    hide Candidates;
  }

  /** An index file is there, itself or, under static compression, in a variant. */
  predicate IndexIsThere(req: Request, dir: FilePath, index: IndexFile) {
    var page := dir + index.parts;
    page in req.fs.nodes || (req.compressionStatic && VariantOf(req.fs, page, req.encodings).Some?)
  }

  /** Where one index file is answered from: its variant before itself before the directory's suffixed page. */
  function BestPlace(req: Request, dir: FilePath, index: IndexFile): Option<Candidate> {
    var page, html := dir + index.parts, HtmlSibling(dir);
    if req.compressionStatic && VariantOf(req.fs, page, req.encodings).Some? then Some(Compressed(page))
    else if page in req.fs.nodes then Some(Plain(page))
    else if html.Some? && html.value in req.fs.nodes then Some(Plain(html.value))
    else None
  }

  lemma BestPlaceIsFirst(req: Request, dir: FilePath, index: IndexFile)
    requires SingleName(index)
    ensures var places, best := Places(req, dir, index), BestPlace(req, dir, index);
            if best.Some? then FirstHit(req, places, best.value) else AllMiss(req, places)
  {
    hide VariantOf;
    IterationRestoresIff(dir, index);
    SuffixedIsSibling(dir);
    hide HtmlSuffixed, HtmlSibling;
    var places, page, html := Places(req, dir, index), dir + index.parts, HtmlSibling(dir);
    var first := if req.compressionStatic then 1 else 0;
    assert places[first] == Plain(page) && (req.compressionStatic ==> places[0] == Compressed(page));
    assert html.Some? ==> places[first + 1] == Plain(html.value);
  }

  lemma {:induction false} FirstAmongIndexes(req: Request, dir: FilePath, indexes: seq<IndexFile>, k: nat, c: Candidate)
    requires (forall index <- indexes :: SingleName(index)) && k < |indexes|
    requires forall i | 0 <= i < k :: AllMiss(req, Places(req, dir, indexes[i]))
    requires FirstHit(req, Places(req, dir, indexes[k]), c)
    ensures FirstHit(req, Candidates(req, dir, indexes), c)
  {
    hide Places, FirstHit, AllMiss;
    IterationRestoresIff(dir, indexes[0]);
    var rest := Candidates(req, dir, indexes[1..]);
    if k == 0 {
      FirstThenAny(req, Places(req, dir, indexes[0]), rest, c);
    } else {
      assert forall index <- indexes[1..] :: index in indexes;
      FirstAmongIndexes(req, dir, indexes[1..], k - 1, c);
      MissThenFirst(req, Places(req, dir, indexes[0]), rest, c);
    }
  }

  lemma {:induction false} NoneAmongIndexes(req: Request, dir: FilePath, indexes: seq<IndexFile>)
    requires forall index <- indexes :: SingleName(index)
    requires forall i | 0 <= i < |indexes| :: AllMiss(req, Places(req, dir, indexes[i]))
    ensures AllMiss(req, Candidates(req, dir, indexes))
  {
    hide Places, Hits;
    if indexes != [] {
      IterationRestoresIff(dir, indexes[0]);
      assert forall index <- indexes[1..] :: index in indexes;
      assert forall i | 0 <= i < |indexes[1..]| :: indexes[1..][i] == indexes[i + 1];
      NoneAmongIndexes(req, dir, indexes[1..]);
    }
  }

  /**
   * A directory, index files being single names: `k` is the first index file that is there, or their number if none
   * is. The suffixed page beside the directory wins over all but the first index file; else the `k`-th answers, from
   * its variant if it has one; and if none is there, the last one is named, with the directory's metadata.
   */
  lemma DirectoryIsAnswered(req: Request, dir: FilePath, configured: seq<IndexFile>, r: FileMetadata, k: nat)
    requires dir in req.fs.nodes && req.fs.nodes[dir].isDir && LookupAnswer(req, dir, configured, Ok(r))
    requires configured != [] && forall index <- configured :: SingleName(index)
    requires k <= |configured| && forall i | 0 <= i < k :: !IndexIsThere(req, dir, configured[i])
    requires k < |configured| ==> IndexIsThere(req, dir, configured[k])
    ensures var html, nodes := HtmlSibling(dir), req.fs.nodes;
            if k > 0 && html.Some? && html.value in nodes then
              r.path == html.value && r.metadata == nodes[html.value] && r.isDir
            else if k < |configured| then
              var page := dir + configured[k].parts;
              var v := VariantOf(req.fs, page, req.encodings);
              r == if req.compressionStatic && v.Some?
                   then FileMetadata(page, v.value.metadata, false, Some((v.value.path, v.value.encoding)))
                   else FileMetadata(page, nodes[page], true, None)
            else
              r == FileMetadata(dir + configured[|configured| - 1].parts, nodes[dir], true, None)
  {
    hide VariantOf, Candidates, Places, FirstHit, AllMiss, HtmlSibling, HtmlSuffixed;
    var html := HtmlSibling(dir);
    var first := if k > 0 && html.Some? && html.value in req.fs.nodes then 0 else k;
    forall i | 0 <= i < first
      ensures AllMiss(req, Places(req, dir, configured[i]))
    {
      BestPlaceIsFirst(req, dir, configured[i]);
    }
    if first < |configured| {
      BestPlaceIsFirst(req, dir, configured[first]);
      var c := BestPlace(req, dir, configured[first]).value;
      FirstAmongIndexes(req, dir, configured, first, c);
      var places := Candidates(req, dir, configured);
      FirstHitIsUnique(req, places, c, c);
      var d := DirectoryHit(req, dir, configured, r);
      FirstHitIsUnique(req, places, c, d);
    } else {
      NoneAmongIndexes(req, dir, configured);
      NoFirstHit(req, Candidates(req, dir, configured));
      AppendedIndexHasNoVariant(req, dir, configured);
      SearchStaysInPlace(req, dir, configured);
      var last := configured[|configured| - 1];
      assert last in configured && Pushed(PlaceAfterAll(dir, configured), last) == dir + last.parts;
    }
  }
}
