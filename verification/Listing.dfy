/**
 * Directory listings: the entry loop and links of `read_dir_entries` (src/directory_listing/dir.rs), and what
 * following a printed link leads to (RFC 3986, section 5.2).
 */
module Listing {
  import opened Wrappers
  import opened Bytes
  import opened Paths

  datatype SymlinkTarget = Unresolvable | OutsideRoot | NoMetadata | ToDirectory | ToOther(len: nat)

  datatype EntryMeta = Directory | RegularFile(len: nat) | Symlink(target: SymlinkTarget) | Special

  /** One directory entry; `meta` is `None` when its metadata cannot be read. */
  datatype DirEntry = DirEntry(name: Name, meta: Option<EntryMeta>)

  datatype FileType = DirectoryType | FileType

  datatype FileEntry = FileEntry(name: Name, size: Option<nat>, kind: FileType, uri: seq<byte>)

  datatype Options = Options(basePath: seq<byte>, ignoreHidden: bool, disableSymlinks: bool)

  datatype ReadError = UnreadableEntry

  predicate Hidden(name: Name) {
    name != [] && name[0] == DOT
  }

  /** The type and size an entry is listed with; `None` when it is skipped. */
  function Shown(e: DirEntry, opts: Options): Option<(FileType, Option<nat>)> {
    if e.meta.None? || (opts.ignoreHidden && Hidden(e.name)) then None
    else
      match e.meta.value
      case Directory => Some((DirectoryType, None))
      case RegularFile(len) => Some((FileType, Some(len)))
      case Special => None
      case Symlink(target) =>
        if opts.disableSymlinks then None
        else
          match target
          case ToDirectory => Some((DirectoryType, None))
          case ToOther(len) => Some((FileType, Some(len)))
          case Unresolvable => None
          case OutsideRoot => None
          case NoMetadata => None
  }

  function AfterLastSlash(p: seq<byte>): (r: seq<byte>)
    ensures |r| <= |p|
  {
    if p == [] || p[|p| - 1] == SLASH then [] else AfterLastSlash(p[..|p| - 1]) + [p[|p| - 1]]
  }

  predicate SlashEnded(p: seq<byte>) {
    p != [] && p[|p| - 1] == SLASH
  }

  /** The relative link of an entry: its encoded name, under the last segment of a slashless request path. */
  function Link(basePath: seq<byte>, name: Name, kind: FileType): seq<byte> {
    (if basePath != [] && !SlashEnded(basePath) then AfterLastSlash(basePath) + [SLASH] + Encode(name) else Encode(name))
    + if kind.DirectoryType? then [SLASH] else []
  }

  /** What one directory entry adds to the listing. */
  function Described(e: DirEntry, opts: Options): seq<FileEntry> {
    var shown := Shown(e, opts);
    if shown.None? then []
    else [FileEntry(e.name, shown.value.1, shown.value.0, Link(opts.basePath, e.name, shown.value.0))]
  }

  /** The listing of a directory: the shown entries in the order read, each with its link. */
  function Listed(reader: seq<Result<DirEntry, ReadError>>, opts: Options): seq<FileEntry> {
    if reader == [] then []
    else
      var last := reader[|reader| - 1];
      Listed(reader[..|reader| - 1], opts) + if last.Ok? then Described(last.value, opts) else []
  }

  function CountDirs(entries: seq<FileEntry>): nat {
    if entries == [] then 0
    else CountDirs(entries[..|entries| - 1]) + if entries[|entries| - 1].kind.DirectoryType? then 1 else 0
  }

  lemma CountDirsStep(entries: seq<FileEntry>, e: FileEntry)
    ensures CountDirs(entries + [e]) == CountDirs(entries) + if e.kind.DirectoryType? then 1 else 0
  {
    assert (entries + [e])[..|entries|] == entries;
  }

  /** Listings of consecutive stretches of a directory follow each other. */
  lemma {:induction false} ListedAppend(a: seq<Result<DirEntry, ReadError>>, b: seq<Result<DirEntry, ReadError>>, opts: Options)
    ensures Listed(a + b, opts) == Listed(a, opts) + Listed(b, opts)
  {
    hide Described;
    if b == [] {
      assert a + b == a;
    } else {
      assert (a + b)[..|a + b| - 1] == a + b[..|b| - 1];
      ListedAppend(a, b[..|b| - 1], opts);
    }
  }

  /** The places of a listing that hold a directory. */
  ghost function DirPlaces(entries: seq<FileEntry>): set<nat> {
    set i: nat | i < |entries| && entries[i].kind == DirectoryType
  }

  lemma DirPlacesSnoc(init: seq<FileEntry>, e: FileEntry)
    ensures |DirPlaces(init + [e])| == |DirPlaces(init)| + if e.kind == DirectoryType then 1 else 0
  {
    assert DirPlaces(init + [e]) == if e.kind == DirectoryType then DirPlaces(init) + {|init|} else DirPlaces(init);
  }

  /** The directories counted are the places that hold one. */
  lemma {:induction false} CountIsCardinality(entries: seq<FileEntry>)
    ensures CountDirs(entries) == |DirPlaces(entries)|
  {
    if entries != [] {
      hide DirPlaces;
      var init, last := entries[..|entries| - 1], entries[|entries| - 1];
      CountIsCardinality(init);
      DirPlacesSnoc(init, last);
      assert init + [last] == entries;
    }
  }

  method ReadDirEntries(reader: seq<Result<DirEntry, ReadError>>, opts: Options)
    returns (r: Result<seq<FileEntry>, ReadError>, dirsCount: nat, filesCount: nat)
    ensures r.Err? <==> exists i :: 0 <= i < |reader| && reader[i].Err?
    ensures r.Ok? ==> r.value == Listed(reader, opts)
    ensures r.Ok? ==> dirsCount == CountDirs(r.value) && dirsCount + filesCount == |r.value|
  {
    hide Described, Link, Shown;
    dirsCount, filesCount := 0, 0;
    var fileEntries: seq<FileEntry> := [];
    for k := 0 to |reader|
      invariant forall i | 0 <= i < k :: reader[i].Ok?
      invariant fileEntries == Listed(reader[..k], opts)
      invariant dirsCount == CountDirs(fileEntries) && dirsCount + filesCount == |fileEntries|
    {
      assert reader[..k + 1][..k] == reader[..k];
      if reader[k].Err? {
        return Err(reader[k].error), dirsCount, filesCount;
      }
      var entry := ListEntry(reader[k].value, opts);
      if entry.None? {
        continue;
      }
      if entry.value.kind.DirectoryType? {
        dirsCount := dirsCount + 1;
      } else {
        filesCount := filesCount + 1;
      }
      CountDirsStep(fileEntries, entry.value);
      fileEntries := fileEntries + [entry.value];
    }
    assert reader[..|reader|] == reader;
    r := Ok(fileEntries);
  }

  /** A link that is shown: it leads to something inside the root whose metadata can be read. */
  predicate FollowedLink(m: EntryMeta, opts: Options) {
    m.Symlink? && !opts.disableSymlinks && (m.target.ToDirectory? || m.target.ToOther?)
  }

  /**
   * An entry is shown unless its metadata cannot be read, its name starts with a dot and such names are ignored, or it
   * is neither directory, file nor a link that is followed; and this is its name, type and size.
   */
  lemma DescribedIs(entry: DirEntry, opts: Options)
    ensures var shown := Described(entry, opts);
            && |shown| <= 1
            && (shown != [] <==>
                  && entry.meta.Some? && !(opts.ignoreHidden && entry.name != [] && entry.name[0] == 0x2E)
                  && (entry.meta.value.Directory? || entry.meta.value.RegularFile? || FollowedLink(entry.meta.value, opts)))
            && (shown != [] ==>
                  && var m, e := entry.meta.value, shown[0];
                  && e.name == entry.name
                  && (e.kind.DirectoryType? <==> m.Directory? || (m.Symlink? && m.target.ToDirectory?))
                  && (e.size.None? <==> e.kind.DirectoryType?)
                  && (m.RegularFile? ==> e.size == Some(m.len))
                  && (m.Symlink? && m.target.ToOther? ==> e.size == Some(m.target.len))
                  && e.uri == Link(opts.basePath, entry.name, e.kind))
  {
    hide Link;
  }

  method ListEntry(entry: DirEntry, opts: Options) returns (r: Option<FileEntry>)
    ensures Described(entry, opts) == if r.None? then [] else [r.value]
  {
    if entry.meta.None? {
      return None;
    }
    if opts.ignoreHidden && Hidden(entry.name) {
      return None;
    }
    var kind, size: Option<nat> := FileType, None;
    match entry.meta.value {
      case Directory => kind := DirectoryType;
      case RegularFile(len) => size := Some(len);
      case Symlink(target) =>
        if opts.disableSymlinks || target.Unresolvable? || target.OutsideRoot? || target.NoMetadata? {
          return None;
        }
        if target.ToDirectory? {
          kind := DirectoryType;
        } else {
          size := Some(target.len);
        }
      case Special => return None;
    }
    var uri := Encode(entry.name);
    if opts.basePath != [] && !SlashEnded(opts.basePath) {
      uri := AfterLastSlash(opts.basePath) + [SLASH] + uri;
    }
    if kind.DirectoryType? {
      uri := uri + [SLASH];
    }
    assert uri == Link(opts.basePath, entry.name, kind);
    r := Some(FileEntry(entry.name, size, kind, uri));
  }

  // ----- Following a link: reference resolution -----

  /** The path of a request target: empty or absolute, without query and fragment. */
  predicate RequestPath(p: seq<byte>) {
    (p == [] || p[0] == SLASH) && QUESTION !in p && HASH !in p
  }

  /** A reference carries a scheme when a non-empty text before its first `/`, `?` or `#` ends in a colon. */
  predicate HasScheme(r: seq<byte>) {
    exists k | 0 <= k < |r| :: SchemeEnd(r, k)
  }

  predicate SchemeEnd(r: seq<byte>, k: nat) {
    0 < k < |r| && r[k] == COLON && forall j | 0 <= j < k :: r[j] != COLON && r[j] != SLASH && r[j] != QUESTION && r[j] != HASH
  }

  function Merge(base: seq<byte>, r: seq<byte>): seq<byte> {
    if base == [] then [SLASH] + r else base[..|base| - |AfterLastSlash(base)|] + r
  }

  /** Dot-segment removal on the segments behind the leading slash; `kept` holds what is kept so far. */
  function RemoveDots(kept: seq<seq<byte>>, segments: seq<seq<byte>>): (r: seq<seq<byte>>)
    ensures segments != [] ==> r != []
    decreases |segments|
  {
    if segments == [] then kept
    else
      var s, rest := segments[0], segments[1..];
      if s == CUR_DIR then (if rest == [] then kept + [[]] else RemoveDots(kept, rest))
      else if s == PARENT_DIR then (if rest == [] then Popped(kept) + [[]] else RemoveDots(Popped(kept), rest))
      else RemoveDots(kept + [s], rest)
  }

  function Popped(s: seq<seq<byte>>): seq<seq<byte>> {
    if s == [] then [] else s[..|s| - 1]
  }

  /** The path a link leads to from a page at `base`; `None` when it leaves the site. */
  function Resolve(base: seq<byte>, r: seq<byte>): Option<seq<byte>> {
    if HasScheme(r) || (|r| >= 2 && r[0] == SLASH && r[1] == SLASH) then None
    else if r == [] then Some(base)
    else
      var merged := if r[0] == SLASH then r else Merge(base, r);
      if merged == [] || merged[0] != SLASH then None
      else
        var segments := RemoveDots([], Split(merged[1..], SLASH));
        Some([SLASH] + Join(segments, SLASH))
  }

  /** The segments of the directory a request path names. */
  function DirSegments(p: seq<byte>): seq<seq<byte>> {
    var q := if SlashEnded(p) then p[..|p| - 1] else p;
    if q == [] then [] else Split(q[1..], SLASH)
  }

  function RouteParts(parts: seq<seq<byte>>): seq<Name> {
    if parts == [] then [] else Route(parts[0]) + RouteParts(parts[1..])
  }

  /** What is kept after one more segment that does not come last. */
  function KeptAfter(kept: seq<seq<byte>>, s: seq<byte>): seq<seq<byte>> {
    if s == CUR_DIR then kept else if s == PARENT_DIR then Popped(kept) else kept + [s]
  }

  /** Dot removal on segments none of which comes last. */
  function Fold(kept: seq<seq<byte>>, segments: seq<seq<byte>>): seq<seq<byte>>
    decreases |segments|
  {
    if segments == [] then kept else Fold(KeptAfter(kept, segments[0]), segments[1..])
  }

  predicate TakesBack(kept: seq<seq<byte>>, s: seq<byte>) {
    s == PARENT_DIR && kept != [] && Route(kept[|kept| - 1]) != []
  }

  /** Some `..` segment takes back a segment that names something. */
  predicate Climbs(kept: seq<seq<byte>>, segments: seq<seq<byte>>)
    decreases |segments|
  {
    segments != [] && (TakesBack(kept, segments[0]) || Climbs(KeptAfter(kept, segments[0]), segments[1..]))
  }

  predicate ClimbsOverName(p: seq<byte>) {
    Climbs([], DirSegments(p))
  }

  /** The last segment of a slashless path would be read as a scheme. */
  predicate SchemeLike(p: seq<byte>) {
    !SlashEnded(p) && HasScheme(AfterLastSlash(p))
  }

  // ----- Lemmas -----

  lemma {:induction false} RoutePartsAppend(a: seq<seq<byte>>, b: seq<seq<byte>>)
    ensures RouteParts(a + b) == RouteParts(a) + RouteParts(b)
  {
    if a == [] {
      assert a + b == b;
    } else {
      assert (a + b)[1..] == a[1..] + b;
      RoutePartsAppend(a[1..], b);
    }
  }

  lemma RoutePartsOne(s: seq<byte>)
    ensures RouteParts([s]) == Route(s)
  {
    assert RouteParts([s]) == Route(s) + RouteParts([]);
  }

  lemma {:induction false} RouteJoin(parts: seq<seq<byte>>)
    requires |parts| > 0
    ensures Route(Join(parts, SLASH)) == RouteParts(parts)
  {
    if |parts| == 1 {
      RoutePartsOne(parts[0]);
      assert parts == [parts[0]];
    } else {
      RouteJoin(parts[1..]);
      RouteAtSlash(parts[0], Join(parts[1..], SLASH));
    }
  }

  lemma RouteSplit(s: seq<byte>)
    ensures Route([SLASH] + s) == RouteParts(Split(s, SLASH))
  {
    JoinSplit(s, SLASH);
    RouteJoin(Split(s, SLASH));
    RouteAfterSlash(s);
  }

  lemma RouteOfDots()
    ensures Route(CUR_DIR) == [] && Route(PARENT_DIR) == []
  {
    assert Decode([DOT]) == [DOT] + Decode([]);
    assert Decode([DOT, DOT]) == [DOT] + Decode([DOT, DOT][1..]);
    assert [DOT, DOT][1..] == [DOT];
    SplitUnseparated(CUR_DIR, SLASH);
    SplitUnseparated(PARENT_DIR, SLASH);
    assert PlainParts([CUR_DIR]) == [] + PlainParts([]);
    assert PlainParts([PARENT_DIR]) == [] + PlainParts([]);
  }

  lemma RoutePartsSnoc(init: seq<seq<byte>>, last: seq<byte>)
    ensures RouteParts(init + [last]) == RouteParts(init) + Route(last)
  {
    hide Route;
    RoutePartsAppend(init, [last]);
    RoutePartsOne(last);
  }

  lemma KeptRoute(kept: seq<seq<byte>>, s: seq<byte>)
    ensures if TakesBack(kept, s) then |RouteParts(KeptAfter(kept, s))| + |Route(s)| < |RouteParts(kept)|
            else RouteParts(KeptAfter(kept, s)) == RouteParts(kept) + Route(s)
  {
    hide Route, RouteParts;
    if s == CUR_DIR || s == PARENT_DIR {
      RouteOfDots();
      if s == PARENT_DIR && kept != [] {
        assert kept == Popped(kept) + [kept[|kept| - 1]];
        RoutePartsSnoc(Popped(kept), kept[|kept| - 1]);
      }
    } else {
      RoutePartsSnoc(kept, s);
    }
  }

  lemma FoldStep(kept: seq<seq<byte>>, segments: seq<seq<byte>>)
    requires segments != []
    ensures Fold(kept, segments) == Fold(KeptAfter(kept, segments[0]), segments[1..])
    ensures Climbs(kept, segments) <==> TakesBack(kept, segments[0]) || Climbs(KeptAfter(kept, segments[0]), segments[1..])
    ensures RouteParts(segments) == Route(segments[0]) + RouteParts(segments[1..])
  {
    hide Route, KeptAfter, TakesBack;
  }

  /** How the route kept after one segment, and the route after all the others, add up. */
  lemma FoldedRoutes(kept: seq<Name>, first: seq<Name>, rest: seq<Name>, keptAfter: seq<Name>, folded: seq<Name>,
                     takesBack: bool, climbs: bool)
    requires if takesBack then |keptAfter| + |first| < |kept| else keptAfter == kept + first
    requires if climbs then |folded| < |keptAfter| + |rest| else folded == keptAfter + rest
    ensures if takesBack || climbs then |folded| < |kept| + |first + rest| else folded == kept + (first + rest)
  {
    Assoc(kept, first, rest);
  }

  /** Dot removal keeps the route exactly when no `..` climbs over a name; otherwise it shortens it. */
  lemma {:induction false} FoldRoute(kept: seq<seq<byte>>, segments: seq<seq<byte>>)
    ensures if Climbs(kept, segments) then |RouteParts(Fold(kept, segments))| < |RouteParts(kept)| + |RouteParts(segments)|
            else RouteParts(Fold(kept, segments)) == RouteParts(kept) + RouteParts(segments)
    decreases |segments|
  {
    if segments == [] {
      assert RouteParts(segments) == [];
    } else {
      hide *;
      var s, rest := segments[0], segments[1..];
      FoldStep(kept, segments);
      KeptRoute(kept, s);
      FoldRoute(KeptAfter(kept, s), rest);
      FoldedRoutes(RouteParts(kept), Route(s), RouteParts(rest), RouteParts(KeptAfter(kept, s)),
                   RouteParts(Fold(KeptAfter(kept, s), rest)), TakesBack(kept, s), Climbs(KeptAfter(kept, s), rest));
    }
  }

  lemma {:induction false} RemoveDotsFolds(kept: seq<seq<byte>>, segments: seq<seq<byte>>, tail: seq<seq<byte>>)
    requires tail != []
    ensures RemoveDots(kept, segments + tail) == RemoveDots(Fold(kept, segments), tail)
    decreases |segments|
  {
    if segments == [] {
      assert segments + tail == tail;
    } else {
      var rest := segments[1..];
      assert (segments + tail)[1..] == rest + tail;
      if segments[0] == CUR_DIR {
        RemoveDotsFolds(kept, rest, tail);
      } else if segments[0] == PARENT_DIR {
        RemoveDotsFolds(Popped(kept), rest, tail);
      } else {
        RemoveDotsFolds(kept + [segments[0]], rest, tail);
      }
    }
  }

  lemma EncodedIsNoDot(name: Name)
    requires PlainName(name)
    ensures Encode(name) != CUR_DIR && Encode(name) != PARENT_DIR && Encode(name) != []
    ensures forall b <- Encode(name) :: b != SLASH && b != COLON && b != QUESTION && b != HASH
  {
    DecodeEncode(name);
    assert Decode([]) == [];
    assert Decode([DOT]) == [DOT] + Decode([]);
    assert Decode([DOT, DOT]) == [DOT] + Decode([DOT, DOT][1..]);
    assert [DOT, DOT][1..] == [DOT];
  }

  lemma {:induction false} LastSegment(p: seq<byte>)
    ensures |AfterLastSlash(p)| <= |p|
    ensures var k := |p| - |AfterLastSlash(p)|;
            p == p[..k] + AfterLastSlash(p) && SLASH !in AfterLastSlash(p) && (k == 0 || p[k - 1] == SLASH)
  {
    if p != [] && p[|p| - 1] != SLASH {
      var init, last := p[..|p| - 1], p[|p| - 1];
      LastSegment(init);
      var k := |init| - |AfterLastSlash(init)|;
      assert AfterLastSlash(p) == AfterLastSlash(init) + [last];
      assert p == init + [last] && p[..k] == init[..k];
      assert init[..k] + AfterLastSlash(init) + [last] == init[..k] + (AfterLastSlash(init) + [last]);
    }
  }

  /** The directory's path, always ending in a slash. */
  function DirPath(p: seq<byte>): seq<byte> {
    if SlashEnded(p) then p else p + [SLASH]
  }

  function LinkTail(kind: FileType): seq<byte> {
    if kind.DirectoryType? then [SLASH] else []
  }

  lemma SchemeBeforeSlash(seg: seq<byte>, rest: seq<byte>)
    requires SLASH !in seg
    ensures HasScheme(seg + [SLASH] + rest) <==> HasScheme(seg)
  {
    var r := seg + [SLASH] + rest;
    assert r[|seg|] == SLASH;
    assert forall j | 0 <= j < |seg| :: r[j] == seg[j];
    forall k | 0 <= k < |r| && SchemeEnd(r, k)
      ensures SchemeEnd(seg, k)
    {
      assert k <= |seg|;
    }
    forall k | 0 <= k < |seg| && SchemeEnd(seg, k)
      ensures SchemeEnd(r, k)
    {
    }
  }

  lemma SchemeOfLink(p: seq<byte>, name: Name, kind: FileType)
    requires PlainName(name)
    ensures HasScheme(Link(p, name, kind)) <==> SchemeLike(p)
  {
    EncodedIsNoDot(name);
    var enc, tail := Encode(name), LinkTail(kind);
    if p != [] && !SlashEnded(p) {
      LastSegment(p);
      var seg := AfterLastSlash(p);
      SchemeBeforeSlash(seg, enc + tail);
      assert Link(p, name, kind) == seg + [SLASH] + (enc + tail);
    } else {
      var link := Link(p, name, kind);
      assert link == enc + tail;
      forall k | 0 <= k < |link|
        ensures !SchemeEnd(link, k)
      {
        assert link[k] in enc || link[k] == SLASH;
      }
      assert AfterLastSlash(p) == [];
    }
  }

  /** What a link puts before the entry's name. */
  function LinkHead(p: seq<byte>): seq<byte> {
    if p != [] && !SlashEnded(p) then AfterLastSlash(p) + [SLASH] else []
  }

  lemma LinkForm(p: seq<byte>, name: Name, kind: FileType)
    ensures Link(p, name, kind) == LinkHead(p) + (Encode(name) + LinkTail(kind))
  {
    hide Encode, AfterLastSlash;
  }

  lemma MergedHead(p: seq<byte>, entry: seq<byte>)
    requires entry != [] && entry[0] != SLASH
    ensures (LinkHead(p) + entry)[0] != SLASH && Merge(p, LinkHead(p) + entry) == DirPath(p) + entry
  {
    if p == [] || SlashEnded(p) {
      assert AfterLastSlash(p) == [] && LinkHead(p) == [];
      assert [] + entry == entry;
      assert p != [] ==> p[..|p|] == p;
    } else {
      hide AfterLastSlash;
      var seg := AfterLastSlash(p);
      LastSegment(p);
      assert seg != [] && seg[0] in seg;
      Regroup(p[..|p| - |seg|], seg, entry);
    }
  }

  lemma LastOf(head: seq<byte>, enc: seq<byte>, tail: seq<byte>)
    requires enc != [] && enc[|enc| - 1] != SLASH && (tail == [] || tail == [SLASH])
    ensures var link := head + (enc + tail); link != [] && (link[|link| - 1] == SLASH <==> tail != [])
  {
    var link := head + (enc + tail);
    if tail == [] {
      assert link[|link| - 1] == enc[|enc| - 1];
    }
  }

  /** A link ends in a slash exactly if its entry is a directory. */
  lemma LinkEnds(p: seq<byte>, name: Name, kind: FileType)
    requires PlainName(name)
    ensures var link := Link(p, name, kind); link != [] && (link[|link| - 1] == 0x2F <==> kind.DirectoryType?)
  {
    EncodedIsNoDot(name);
    LinkForm(p, name, kind);
    var enc, tail := Encode(name), LinkTail(kind);
    assert (tail == [] || tail == [SLASH]) && (tail != [] <==> kind.DirectoryType?);
    hide *;
    assert enc[|enc| - 1] in enc;
    LastOf(LinkHead(p), enc, tail);
  }

  lemma Regroup(a: seq<byte>, seg: seq<byte>, entry: seq<byte>)
    ensures a + (seg + [SLASH] + entry) == a + seg + [SLASH] + entry
  {
  }

  lemma MergedLink(p: seq<byte>, name: Name, kind: FileType)
    requires PlainName(name)
    ensures var link := Link(p, name, kind);
            link != [] && link[0] != SLASH && Merge(p, link) == DirPath(p) + Encode(name) + LinkTail(kind)
  {
    EncodedIsNoDot(name);
    hide *;
    var enc, tail := Encode(name), LinkTail(kind);
    assert enc[0] in enc;
    LinkForm(p, name, kind);
    MergedHead(p, enc + tail);
    assert DirPath(p) + (enc + tail) == DirPath(p) + enc + tail;
  }

  lemma SplitTail(enc: seq<byte>, kind: FileType)
    requires SLASH !in enc
    ensures Split(enc + LinkTail(kind), SLASH) == LinkParts(enc, kind)
  {
    SplitUnseparated(enc, SLASH);
    if kind.DirectoryType? {
      SplitAtSeparator(enc, SLASH, []);
      assert enc + LinkTail(kind) == enc + [SLASH] + [];
    } else {
      assert enc + LinkTail(kind) == enc;
    }
  }

  /** The segments a followed link is split into: the directory's and the link's own. */
  lemma LinkSegments(p: seq<byte>, tail: seq<byte>)
    requires p == [] || p[0] == SLASH
    ensures Split((DirPath(p) + tail)[1..], SLASH) == DirSegments(p) + Split(tail, SLASH)
  {
    var m := DirPath(p) + tail;
    var q := if SlashEnded(p) then p[..|p| - 1] else p;
    assert DirPath(p) == q + [SLASH];
    if q == [] {
      assert m[1..] == tail;
    } else {
      assert m[1..] == q[1..] + [SLASH] + tail;
      SplitAtSeparator(q[1..], SLASH, tail);
    }
  }

  lemma RouteOfRequest(p: seq<byte>)
    requires RequestPath(p)
    ensures Route(p) == RouteParts(DirSegments(p))
  {
    var q := if SlashEnded(p) then p[..|p| - 1] else p;
    RouteOfNothing();
    if SlashEnded(p) {
      RouteAtSlash(q, []);
      assert p == q + [SLASH] + [];
    }
    if q != [] {
      RouteSplit(q[1..]);
      assert q == [SLASH] + q[1..];
    }
  }

  /** The segments a link adds behind the directory's. */
  function LinkParts(enc: seq<byte>, kind: FileType): (parts: seq<seq<byte>>)
    ensures parts != []
  {
    [enc] + if kind.DirectoryType? then [[]] else []
  }

  lemma DotsKeepLink(folded: seq<seq<byte>>, enc: seq<byte>, kind: FileType)
    requires enc != CUR_DIR && enc != PARENT_DIR
    ensures RemoveDots(folded, LinkParts(enc, kind)) == folded + LinkParts(enc, kind)
  {
    var more: seq<seq<byte>> := if kind.DirectoryType? then [[]] else [];
    assert LinkParts(enc, kind)[1..] == more;
    assert folded + LinkParts(enc, kind) == folded + [enc] + more;
    if kind.DirectoryType? {
      assert more[0] == [] && more[1..] == [];
      assert RemoveDots(folded + [enc], more) == RemoveDots(folded + [enc] + more, []);
    }
  }

  lemma RouteOfLinked(folded: seq<seq<byte>>, name: Name, kind: FileType)
    requires PlainName(name)
    ensures Route([SLASH] + Join(folded + LinkParts(Encode(name), kind), SLASH)) == RouteParts(folded) + [name]
  {
    var parts := LinkParts(Encode(name), kind);
    RouteJoin(folded + parts);
    RouteAfterSlash(Join(folded + parts, SLASH));
    RoutePartsAppend(folded, parts);
    RoutePartsAppend([Encode(name)], if kind.DirectoryType? then [[]] else []);
    RouteEncoded(name);
    RoutePartsOne(Encode(name));
    RoutePartsOne([]);
    RouteOfNothing();
  }

  lemma RouteOfResolved(p: seq<byte>, name: Name, kind: FileType)
    requires RequestPath(p) && PlainName(name) && !SchemeLike(p)
    ensures var target := Resolve(p, Link(p, name, kind));
            target.Some? && Route(target.value) == RouteParts(Fold([], DirSegments(p))) + [name]
  {
    SchemeOfLink(p, name, kind);
    MergedLink(p, name, kind);
    EncodedIsNoDot(name);
    SplitTail(Encode(name), kind);
    LinkSegments(p, Encode(name) + LinkTail(kind));
    assert DirPath(p) + Encode(name) + LinkTail(kind) == DirPath(p) + (Encode(name) + LinkTail(kind));
    RemoveDotsFolds([], DirSegments(p), LinkParts(Encode(name), kind));
    DotsKeepLink(Fold([], DirSegments(p)), Encode(name), kind);
    RouteOfLinked(Fold([], DirSegments(p)), name, kind);
  }

  /**
   * Links round trip: following an entry's link from the listing and sanitizing the new request path leads to
   * the listed directory's path followed by exactly that entry's name, for files and directories and for
   * both link forms. It fails exactly for a slashless path whose last segment reads as a scheme, and for a
   * path with a `..` that climbs over a name: clients resolve that segment, `sanitize_path` drops it.
   */
  lemma LinkRoundTrip(p: seq<byte>, name: Name, kind: FileType)
    requires RequestPath(p) && PlainName(name)
    ensures var target := Resolve(p, Link(p, name, kind));
            (target.Some? && Route(target.value) == Route(p) + [name]) <==> !SchemeLike(p) && !ClimbsOverName(p)
  {
    SchemeOfLink(p, name, kind);
    if !SchemeLike(p) {
      RouteOfResolved(p, name, kind);
      RouteOfRequest(p);
      FoldRoute([], DirSegments(p));
      assert RouteParts([]) + RouteParts(DirSegments(p)) == RouteParts(DirSegments(p));
    }
  }

  /** Below `/a/../b/` every link leads to another directory. */
  lemma ClimbingLinksFail(name: Name, kind: FileType)
    requires PlainName(name)
    ensures var p: seq<byte> := [SLASH, 0x61, SLASH, DOT, DOT, SLASH, 0x62, SLASH];
            var target := Resolve(p, Link(p, name, kind));
            && RequestPath(p) && !SchemeLike(p) && ClimbsOverName(p)
            && target.Some? && |Route(target.value)| < |Route(p) + [name]|
  {
    hide Route, Resolve, Link;
    var p: seq<byte> := [SLASH, 0x61, SLASH, DOT, DOT, SLASH, 0x62, SLASH];
    var a, b: seq<byte> := [0x61], [0x62];
    SplitUnseparated(a, SLASH);
    SplitUnseparated(PARENT_DIR, SLASH);
    SplitUnseparated(b, SLASH);
    SplitAtSeparator(PARENT_DIR, SLASH, b);
    SplitAtSeparator(a, SLASH, PARENT_DIR + [SLASH] + b);
    assert p[..7][1..] == a + [SLASH] + (PARENT_DIR + [SLASH] + b);
    assert DirSegments(p) == [a, PARENT_DIR, b];
    assert Route(a) == [a] by { PlainRoute(a); }
    assert Climbs([], [a, PARENT_DIR, b]) by {
      assert [a, PARENT_DIR, b][1..] == [PARENT_DIR, b];
      assert Climbs([a], [PARENT_DIR, b]);
    }
    RouteOfResolved(p, name, kind);
    RouteOfRequest(p);
    FoldRoute([], DirSegments(p));
  }

  lemma PlainRoute(n: Name)
    requires PlainName(n) && Encode(n) == n
    ensures Route(n) == [n]
  {
    RouteEncoded(n);
  }

  /** On the page `/x:` every link reads as one of scheme `x`. */
  lemma SchemeLinksFail(name: Name, kind: FileType)
    requires PlainName(name)
    ensures var p: seq<byte> := [SLASH, 0x78, COLON];
            RequestPath(p) && !ClimbsOverName(p) && SchemeLike(p) && Resolve(p, Link(p, name, kind)).None?
  {
    var p: seq<byte> := [SLASH, 0x78, COLON];
    var seg: seq<byte> := [0x78, COLON];
    SplitUnseparated(seg, SLASH);
    assert p[1..] == seg;
    assert DirSegments(p) == [seg];
    assert !Climbs([], [seg]) by {
      assert seg[0] != PARENT_DIR[0] && !Climbs([seg], []);
      assert [] + [seg] == [seg] && [seg][1..] == [];
    }
    LastSegment(p);
    assert SchemeEnd(seg, 1);
    assert AfterLastSlash(p) == seg;
    SchemeOfLink(p, name, kind);
  }
}
