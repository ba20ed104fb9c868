/**
 * Control-plane routes: document validation (src/routes/document.rs) and the fetch, cache and fallback decisions of
 * a startup (src/routes/bootstrap.rs), replayed over any number of restarts.
 */
module Bootstrap {
  import opened Wrappers
  import opened Text
  import opened Routing

  datatype RouteEntry = RouteEntry(
    name: Option<string>,
    host: Option<string>,
    source: string,
    target: Option<string>,
    targets: Option<seq<string>>,
    stripPrefix: Option<string>)

  datatype AppRoutes = AppRoutes(id: string, routes: seq<RouteEntry>)

  datatype RoutesDocument = RoutesDocument(version: nat, apps: seq<AppRoutes>)

  datatype DocumentError = UnsupportedVersion | SourceWithoutSlash | SourceWithDotDot | RelativeStripPrefix

  predicate ContainsDotDot(s: string) {
    exists i | 0 <= i < |s| - 1 :: s[i] == '.' && s[i + 1] == '.'
  }

  function ValidateRouteSource(source: string): Option<DocumentError> {
    if !StartsWithSlash(source) then Some(SourceWithoutSlash)
    else if ContainsDotDot(source) then Some(SourceWithDotDot)
    else None
  }

  function RouteFault(route: RouteEntry): Option<DocumentError> {
    var fault := ValidateRouteSource(route.source);
    if fault.Some? then fault
    else if route.stripPrefix.Some? && !StartsWithSlash(route.stripPrefix.value) then Some(RelativeStripPrefix)
    else None
  }

  function ToProxy(r: RouteEntry): ProxyDef {
    ProxyDef(r.name, r.host, r.source, r.target, r.targets, r.stripPrefix)
  }

  /** All routes of all applications, in document order. */
  function AllRoutes(apps: seq<AppRoutes>): seq<RouteEntry> {
    if apps == [] then [] else AllRoutes(apps[..|apps| - 1]) + apps[|apps| - 1].routes
  }

  function ToProxies(routes: seq<RouteEntry>): seq<ProxyDef> {
    seq(|routes|, i requires 0 <= i < |routes| => ToProxy(routes[i]))
  }

  /** The first fault, in document order. */
  function FirstFault(routes: seq<RouteEntry>): (r: Option<DocumentError>)
    ensures r.None? <==> forall i | 0 <= i < |routes| :: RouteFault(routes[i]).None?
  {
    if routes == [] then None
    else
      var earlier := FirstFault(routes[..|routes| - 1]);
      if earlier.Some? then earlier else RouteFault(routes[|routes| - 1])
  }

  function ProxyDefs(doc: RoutesDocument): Result<seq<ProxyDef>, DocumentError> {
    if doc.version != 1 then Err(UnsupportedVersion)
    else
      var fault := FirstFault(AllRoutes(doc.apps));
      if fault.Some? then Err(fault.value) else Ok(ToProxies(AllRoutes(doc.apps)))
  }

  lemma {:induction false} FaultStays(routes: seq<RouteEntry>, k: nat)
    requires k <= |routes| && FirstFault(routes[..k]).Some?
    ensures FirstFault(routes) == FirstFault(routes[..k])
    decreases |routes|
  {
    if k < |routes| {
      assert routes[..|routes| - 1][..k] == routes[..k];
      FaultStays(routes[..|routes| - 1], k);
    } else {
      assert routes[..k] == routes;
    }
  }

  lemma {:induction false} RoutesBegin(apps: seq<AppRoutes>, k: nat)
    requires k <= |apps|
    ensures AllRoutes(apps[..k]) <= AllRoutes(apps)
    decreases |apps|
  {
    if k < |apps| {
      assert apps[..|apps| - 1][..k] == apps[..k];
      RoutesBegin(apps[..|apps| - 1], k);
    } else {
      assert apps[..k] == apps;
    }
  }

  lemma RoutesUpTo(apps: seq<AppRoutes>, a: nat, j: nat)
    requires a < |apps| && j <= |apps[a].routes|
    ensures var n := |AllRoutes(apps[..a])| + j;
            n <= |AllRoutes(apps)| && AllRoutes(apps)[..n] == AllRoutes(apps[..a]) + apps[a].routes[..j]
  {
    RoutesBegin(apps, a + 1);
    assert apps[..a + 1][..a] == apps[..a];
    var prefix := AllRoutes(apps[..a + 1]);
    assert prefix == AllRoutes(apps[..a]) + apps[a].routes;
    var n := |AllRoutes(apps[..a])| + j;
    assert AllRoutes(apps)[..n] == prefix[..n];
  }

  lemma OneMoreRoute(before: seq<RouteEntry>, routes: seq<RouteEntry>, j: nat)
    requires j < |routes| && FirstFault(before + routes[..j]).None?
    ensures var next := before + routes[..j + 1];
            FirstFault(next) == RouteFault(routes[j]) && ToProxies(next) == ToProxies(before + routes[..j]) + [ToProxy(routes[j])]
  {
    var next := before + routes[..j + 1];
    assert next[..|next| - 1] == before + routes[..j] && next[|next| - 1] == routes[j];
  }

  /** The fault of a route, once nothing before it has one, is the document's. */
  lemma FaultIsFirst(apps: seq<AppRoutes>, a: nat, j: nat)
    requires a < |apps| && j < |apps[a].routes|
    requires FirstFault(AllRoutes(apps[..a]) + apps[a].routes[..j]).None? && RouteFault(apps[a].routes[j]).Some?
    ensures FirstFault(AllRoutes(apps)) == RouteFault(apps[a].routes[j])
  {
    hide RouteFault, FirstFault, AllRoutes;
    OneMoreRoute(AllRoutes(apps[..a]), apps[a].routes, j);
    RoutesUpTo(apps, a, j + 1);
    FaultStays(AllRoutes(apps), |AllRoutes(apps[..a])| + (j + 1));
  }

  lemma OneMoreApp(apps: seq<AppRoutes>, a: nat)
    requires a < |apps|
    ensures AllRoutes(apps[..a + 1]) == AllRoutes(apps[..a]) + apps[a].routes[..|apps[a].routes|]
  {
    assert apps[..a + 1][..a] == apps[..a];
    assert apps[a].routes[..|apps[a].routes|] == apps[a].routes;
  }

  method IntoProxyDefs(doc: RoutesDocument) returns (r: Result<seq<ProxyDef>, DocumentError>)
    ensures r == ProxyDefs(doc)
  {
    if doc.version != 1 {
      return Err(UnsupportedVersion);
    }
    var defs: seq<ProxyDef> := [];
    for a := 0 to |doc.apps|
      invariant defs == ToProxies(AllRoutes(doc.apps[..a])) && FirstFault(AllRoutes(doc.apps[..a])).None?
    {
      var routes := doc.apps[a].routes;
      ghost var before := AllRoutes(doc.apps[..a]);
      assert before + routes[..0] == before;
      for j := 0 to |routes|
        invariant defs == ToProxies(before + routes[..j]) && FirstFault(before + routes[..j]).None?
      {
        var route := routes[j];
        OneMoreRoute(before, routes, j);
        var fault := ValidateRouteSource(route.source);
        if fault.Some? {
          FaultIsFirst(doc.apps, a, j);
          return Err(fault.value);
        }
        if route.stripPrefix.Some? && !StartsWithSlash(route.stripPrefix.value) {
          FaultIsFirst(doc.apps, a, j);
          return Err(RelativeStripPrefix);
        }
        defs := defs + [ToProxy(route)];
      }
      OneMoreApp(doc.apps, a);
    }
    assert doc.apps[..|doc.apps|] == doc.apps;
    r := Ok(defs);
  }

  /**
   * An accepted document yields every route of every application, in order: route `j` of application `a` stands
   * behind all routes of the earlier applications, and there are no others.
   */
  lemma NoRouteIsLost(doc: RoutesDocument, a: nat, j: nat)
    requires ProxyDefs(doc).Ok? && a < |doc.apps| && j < |doc.apps[a].routes|
    ensures var defs, k := ProxyDefs(doc).value, RouteCount(doc.apps[..a]) + j;
            && k < |defs| == RouteCount(doc.apps)
            && var def, route := defs[k], doc.apps[a].routes[j];
               && def.name == route.name && def.host == route.host && def.source == route.source
               && def.target == route.target && def.targets == route.targets && def.stripPrefix == route.stripPrefix
  {
    CountIsLength(doc.apps);
    CountIsLength(doc.apps[..a]);
    RoutesUpTo(doc.apps, a, j + 1);
    var n := |AllRoutes(doc.apps[..a])| + (j + 1);
    assert AllRoutes(doc.apps)[..n][n - 1] == doc.apps[a].routes[j];
  }

  /** What is wrong with a route: the source is judged before the strip-prefix. */
  ghost predicate Faulty(route: RouteEntry, fault: DocumentError) {
    var source, prefix := route.source, route.stripPrefix;
    var rooted := source != "" && source[0] == '/';
    var climbs := exists before, after :: source == before + ".." + after;
    match fault
    case UnsupportedVersion => false
    case SourceWithoutSlash => !rooted
    case SourceWithDotDot => rooted && climbs
    case RelativeStripPrefix => rooted && !climbs && prefix.Some? && (prefix.value == "" || prefix.value[0] != '/')
  }

  lemma DotDotIff(s: string)
    ensures ContainsDotDot(s) <==> exists before, after :: s == before + ".." + after
  {
    if ContainsDotDot(s) {
      var i :| 0 <= i < |s| - 1 && s[i] == '.' && s[i + 1] == '.';
      assert s == s[..i] + ".." + s[i + 2..];
    }
    forall before, after | s == before + ".." + after
      ensures ContainsDotDot(s)
    {
      assert s[|before|] == '.' && s[|before| + 1] == '.';
    }
  }

  lemma FaultIff(route: RouteEntry, fault: DocumentError)
    ensures RouteFault(route) == Some(fault) <==> Faulty(route, fault)
  {
    hide ContainsDotDot;
    DotDotIff(route.source);
  }

  ghost predicate Faultless(route: RouteEntry) {
    forall fault :: !Faulty(route, fault)
  }

  lemma FaultlessIff(route: RouteEntry)
    ensures RouteFault(route).None? <==> Faultless(route)
  {
    hide RouteFault, Faulty;
    forall fault
      ensures RouteFault(route) == Some(fault) <==> Faulty(route, fault)
    {
      FaultIff(route, fault);
    }
  }

  ghost predicate AllFaultless(apps: seq<AppRoutes>) {
    forall a, j | 0 <= a < |apps| && 0 <= j < |apps[a].routes| :: Faultless(apps[a].routes[j])
  }

  lemma NoFaultIff(apps: seq<AppRoutes>)
    ensures FirstFault(AllRoutes(apps)).None? <==> AllFaultless(apps)
  {
    hide RouteFault, Faultless;
    var routes := AllRoutes(apps);
    if FirstFault(routes).None? {
      forall a, j | 0 <= a < |apps| && 0 <= j < |apps[a].routes|
        ensures Faultless(apps[a].routes[j])
      {
        var k := RouteIsAmong(apps, a, j);
        FaultlessIff(routes[k]);
      }
    } else {
      var k := FirstFaultAt(routes);
      var a, j := RouteComesFrom(apps, k);
      FaultlessIff(routes[k]);
      assert !Faultless(apps[a].routes[j]);
    }
  }

  /** A document is accepted exactly if it is of version 1 and no route is faulty; else the version or a route's fault is reported. */
  lemma AcceptedIff(doc: RoutesDocument)
    ensures var r := ProxyDefs(doc);
            && (r.Ok? <==> doc.version == 1 && AllFaultless(doc.apps))
            && (r == Err(UnsupportedVersion) <==> doc.version != 1)
            && (r.Err? && doc.version == 1 ==> exists route <- AllRoutes(doc.apps) :: Faulty(route, r.error))
  {
    hide Faulty, RouteFault, AllFaultless;
    var routes := AllRoutes(doc.apps);
    NoFaultIff(doc.apps);
    if FirstFault(routes).Some? {
      var k := FirstFaultAt(routes);
      FaultIff(routes[k], FirstFault(routes).value);
      NeverTheVersion(routes[k]);
    }
  }

  lemma NeverTheVersion(route: RouteEntry)
    ensures RouteFault(route) != Some(UnsupportedVersion)
  {
  }

  lemma {:induction false} FirstFaultAt(routes: seq<RouteEntry>) returns (k: nat)
    ensures FirstFault(routes).Some? ==> k < |routes| && RouteFault(routes[k]) == FirstFault(routes)
    ensures FirstFault(routes).Some? ==> forall i | 0 <= i < k :: RouteFault(routes[i]).None?
  {
    hide RouteFault;
    k := 0;
    if routes != [] {
      if FirstFault(routes[..|routes| - 1]).Some? {
        k := FirstFaultAt(routes[..|routes| - 1]);
      } else {
        k := |routes| - 1;
      }
    }
  }

  lemma RouteIsAmong(apps: seq<AppRoutes>, a: nat, j: nat) returns (k: nat)
    requires a < |apps| && j < |apps[a].routes|
    ensures k < |AllRoutes(apps)| && AllRoutes(apps)[k] == apps[a].routes[j]
  {
    RoutesUpTo(apps, a, j + 1);
    k := |AllRoutes(apps[..a])| + j;
    assert AllRoutes(apps)[..k + 1][k] == apps[a].routes[j];
  }

  lemma {:induction false} RouteComesFrom(apps: seq<AppRoutes>, k: nat) returns (a: nat, j: nat)
    requires k < |AllRoutes(apps)|
    ensures a < |apps| && j < |apps[a].routes| && apps[a].routes[j] == AllRoutes(apps)[k]
  {
    var init := apps[..|apps| - 1];
    if k < |AllRoutes(init)| {
      a, j := RouteComesFrom(init, k);
    } else {
      a, j := |apps| - 1, k - |AllRoutes(init)|;
    }
  }

  function RouteCount(apps: seq<AppRoutes>): nat {
    if apps == [] then 0 else RouteCount(apps[..|apps| - 1]) + |apps[|apps| - 1].routes|
  }

  lemma {:induction false} CountIsLength(apps: seq<AppRoutes>)
    ensures |AllRoutes(apps)| == RouteCount(apps)
  {
    if apps != [] {
      CountIsLength(apps[..|apps| - 1]);
    }
  }

  /**
   * What the document check lets through: sources that start with a slash and have no two dots in a row at any
   * position, and strip prefixes that never fail the compiler's own check.
   */
  lemma AcceptedRoutesAreSafe(engine: Engine, doc: RoutesDocument, k: nat, i: nat)
    requires ProxyDefs(doc).Ok? && k < |ProxyDefs(doc).value|
    ensures CompileRule(engine, ProxyDefs(doc).value[k]) != Err(BadStripPrefix)
    ensures var source := ProxyDefs(doc).value[k].source;
            StartsWithSlash(source) && (i + 2 <= |source| ==> source[i..i + 2] != "..")
  {
    var source := ProxyDefs(doc).value[k].source;
    assert RouteFault(AllRoutes(doc.apps)[k]).None?;
    assert i + 2 <= |source| ==> source[i..i + 2] == [source[i], source[i + 1]];
  }

  // ----- Startups -----

  datatype OnFailure = CacheThenFile | Fail | FileOnly

  datatype Config = Config(onFailure: OnFailure, hasCachePath: bool)

  datatype StartupError = Invalid(error: DocumentError) | FetchFailed

  /** `Ok(None)` means: use the TOML rules only. */
  type Outcome = Result<Option<seq<ProxyDef>>, StartupError>

  /** The snapshot file; `None` while there is none that can be read. */
  class Snapshot {
    var document: Option<RoutesDocument>

    constructor ()
      ensures document == None
    {
      document := None;
    }
  }

  function Loaded(doc: RoutesDocument): Outcome {
    match ProxyDefs(doc)
    case Ok(defs) => Ok(Some(defs))
    case Err(e) => Err(Invalid(e))
  }

  /** What a startup does to the snapshot and how it ends; `fetched` is the document, if the fetch succeeds. */
  function Startup(snapshot: Option<RoutesDocument>, config: Config, fetched: Option<RoutesDocument>, writable: bool)
    : (Option<RoutesDocument>, Outcome)
  {
    if config.onFailure.FileOnly? then (snapshot, Ok(None))
    else if fetched.Some? then (if config.hasCachePath && writable then fetched else snapshot, Loaded(fetched.value))
    else if config.hasCachePath && snapshot.Some? then (snapshot, Loaded(snapshot.value))
    else (snapshot, if config.onFailure.Fail? then Err(FetchFailed) else Ok(None))
  }

  /** The outcome is the document's definitions, or its fault. */
  predicate EndsWith(doc: RoutesDocument, r: Outcome) {
    match ProxyDefs(doc)
    case Ok(defs) => r.Ok? && r.value == Some(defs)
    case Err(fault) => r.Err? && r.error.Invalid? && r.error.error == fault
  }

  method FetchRoutesDefs(cache: Snapshot, config: Config, fetched: Option<RoutesDocument>, writable: bool) returns (r: Outcome)
    modifies cache
    ensures (cache.document, r) == Startup(old(cache.document), config, fetched, writable)
    ensures config.onFailure.FileOnly? ==> cache.document == old(cache.document) && r == Ok(None)
    ensures !config.onFailure.FileOnly? && fetched.Some? ==>
              && EndsWith(fetched.value, r)
              && cache.document == if config.hasCachePath && writable then fetched else old(cache.document)
    ensures !config.onFailure.FileOnly? && fetched.None? ==>
              && cache.document == old(cache.document)
              && if config.hasCachePath && cache.document.Some? then EndsWith(cache.document.value, r)
                 else r == if config.onFailure.Fail? then Err(FetchFailed) else Ok(None)
  {
    if config.onFailure.FileOnly? {
      return Ok(None);
    }
    if fetched.Some? {
      if config.hasCachePath && writable {
        cache.document := fetched;
      }
      var defs := IntoProxyDefs(fetched.value);
      match defs
      case Ok(ds) => return Ok(Some(ds));
      case Err(e) => return Err(Invalid(e));
    }
    r := HandleFetchFailure(cache, config);
  }

  method HandleFetchFailure(cache: Snapshot, config: Config) returns (r: Outcome)
    requires !config.onFailure.FileOnly?
    ensures r == Startup(cache.document, config, None, true).1
  {
    if config.hasCachePath && cache.document.Some? {
      var defs := IntoProxyDefs(cache.document.value);
      match defs
      case Ok(ds) => return Ok(Some(ds));
      case Err(e) => return Err(Invalid(e));
    }
    if config.onFailure.Fail? {
      return Err(FetchFailed);
    }
    r := Ok(None);
  }

  /** One start of the server: its policy then, what the control plane answers, and whether the snapshot can be written. */
  datatype Start = Start(onFailure: OnFailure, fetched: Option<RoutesDocument>, writable: bool)

  /** The snapshot after any sequence of starts with a cache path; a failed write is logged and otherwise ignored. */
  function SnapshotAfter(initial: Option<RoutesDocument>, starts: seq<Start>): Option<RoutesDocument> {
    if starts == [] then initial
    else
      var s := starts[|starts| - 1];
      Startup(SnapshotAfter(initial, starts[..|starts| - 1]), Config(s.onFailure, true), s.fetched, s.writable).0
  }

  predicate Fetches(s: Start) {
    !s.onFailure.FileOnly? && s.fetched.Some?
  }

  /** The `k`-th start is the last one that fetches a document. */
  ghost predicate LastFetch(starts: seq<Start>, k: nat) {
    k < |starts| && Fetches(starts[k]) && forall j | k < j < |starts| :: !Fetches(starts[j])
  }

  /** The `k`-th start is the last one that fetches a document and writes it down. */
  ghost predicate LastWrite(starts: seq<Start>, k: nat) {
    && k < |starts| && Fetches(starts[k]) && starts[k].writable
    && forall j | k < j < |starts| :: !(Fetches(starts[j]) && starts[j].writable)
  }

  /** No start writes a document down. */
  ghost predicate NoWrite(starts: seq<Start>) {
    forall s <- starts :: !(Fetches(s) && s.writable)
  }

  /** The snapshot stays as it is through starts that fetch nothing or cannot write. */
  lemma {:induction false} SnapshotStays(initial: Option<RoutesDocument>, starts: seq<Start>, k: nat)
    requires k <= |starts| && forall j | k <= j < |starts| :: !(Fetches(starts[j]) && starts[j].writable)
    ensures SnapshotAfter(initial, starts) == SnapshotAfter(initial, starts[..k])
    decreases |starts|
  {
    if k < |starts| {
      assert starts[..|starts| - 1][..k] == starts[..k];
      SnapshotStays(initial, starts[..|starts| - 1], k);
    } else {
      assert starts[..k] == starts;
    }
  }

  /** The snapshot is the document fetched and written last, and before the first the one found on disk. */
  lemma {:induction false} SnapshotIsLastWritten(initial: Option<RoutesDocument>, starts: seq<Start>, k: nat)
    ensures LastWrite(starts, k) ==> SnapshotAfter(initial, starts) == starts[k].fetched
    ensures NoWrite(starts) ==> SnapshotAfter(initial, starts) == initial
  {
    if LastWrite(starts, k) {
      SnapshotStays(initial, starts, k + 1);
      assert starts[..k + 1][..k] == starts[..k];
    }
    if NoWrite(starts) {
      SnapshotStays(initial, starts, 0);
      assert starts[..0] == [];
    }
  }

  /** How a start ends, with a cache path. */
  function EndOf(snapshot: Option<RoutesDocument>, policy: OnFailure, fetched: Option<RoutesDocument>): Outcome {
    Startup(snapshot, Config(policy, true), fetched, true).1
  }

  /**
   * Replay: after any sequence of starts with any policies, a start whose fetch fails ends exactly as one that
   * fetched the document fetched and written last, be it valid or not; if none was ever written, as one that fetched
   * the document found on disk at first, and without that it fails or falls back to the TOML rules as its policy says.
   */
  lemma {:induction false} FailedFetchReplaysLast(initial: Option<RoutesDocument>, starts: seq<Start>, policy: OnFailure, k: nat)
    requires !policy.FileOnly?
    ensures var now := SnapshotAfter(initial, starts);
            && (LastWrite(starts, k) ==> EndOf(now, policy, None) == EndOf(now, policy, starts[k].fetched))
            && (NoWrite(starts) && initial.Some? ==> EndOf(now, policy, None) == EndOf(now, policy, initial))
            && (NoWrite(starts) && initial.None? ==>
                  EndOf(now, policy, None) == if policy.Fail? then Err(FetchFailed) else Ok(None))
  {
    SnapshotIsLastWritten(initial, starts, k);
  }

  /**
   * What is replayed is the document fetched last, exactly when that could be written, or the snapshot already
   * held the same document.
   */
  lemma {:induction false} SnapshotIsLastFetchedIff(initial: Option<RoutesDocument>, starts: seq<Start>, k: nat)
    requires LastFetch(starts, k)
    ensures SnapshotAfter(initial, starts) == starts[k].fetched
       <==> starts[k].writable || SnapshotAfter(initial, starts[..k]) == starts[k].fetched
  {
    SnapshotStays(initial, starts, k + 1);
    assert starts[..k + 1][..k] == starts[..k];
  }

  /** A document that is fetched and cannot be written is forgotten: the next start without a fetch does not know it. */
  lemma UnwrittenIsForgotten(doc: RoutesDocument)
    ensures var starts := [Start(CacheThenFile, Some(doc), false)];
            && LastFetch(starts, 0) && SnapshotAfter(None, starts) == None
            && EndOf(SnapshotAfter(None, starts), CacheThenFile, None) == Ok(None)
  {
    var starts := [Start(CacheThenFile, Some(doc), false)];
    SnapshotIsLastWritten(None, starts, 0);
  }
}
