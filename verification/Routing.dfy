/**
 * Proxy routing: merge and sort (src/proxy.rs, src/proxy_sort.rs), compile (src/proxy_compile.rs), match
 * (`find_rule`) and the upstream URI of a matched request.
 */
module Routing {
  import opened Wrappers
  import opened Text
  import opened Sorting
  import opened Upstream
  import opened Balancer

  datatype ProxyDef = ProxyDef(
    name: Option<string>,
    host: Option<string>,
    source: string,
    target: Option<string>,
    targets: Option<seq<string>>,
    stripPrefix: Option<string>)

  /** Glob compilation and URI parsing, which the model takes as given. */
  datatype Engine = Engine(glob: string -> Option<string -> bool>, parseUri: UriParser)

  datatype CompileError = BadGlob | BadStripPrefix | TargetAndTargets | NoTarget | BadTargetUrl | TargetWithoutScheme | TargetWithoutHost

  /** A compiled rule; its round-robin counter is `Balancer.ProxyBalancer`'s. */
  datatype ProxyRule = ProxyRule(host: Option<string>, source: string, matches: string -> bool, targets: seq<Uri>,
                                 stripPrefix: Option<string>, templates: seq<Template>)

  // ----- Sorting -----

  function Wildcards(source: string): nat {
    if source == "" then 0 else (if source[0] == '*' then 1 else 0) + Wildcards(source[1..])
  }

  lemma {:induction false} WildcardsAreStars(source: string)
    ensures Wildcards(source) == multiset(source)['*']
  {
    if source != "" {
      WildcardsAreStars(source[1..]);
      assert source == [source[0]] + source[1..];
    }
  }

  function SpecificityKey(def: ProxyDef): Key {
    Key(|def.source|, Wildcards(def.source))
  }

  // ----- Compiling -----

  function ParseTarget(engine: Engine, url: string): Result<Uri, CompileError> {
    match engine.parseUri(Trim(url))
    case None => Err(BadTargetUrl)
    case Some(uri) =>
      if uri.scheme.None? then Err(TargetWithoutScheme)
      else if uri.authority.None? then Err(TargetWithoutHost)
      else Ok(uri)
  }

  function ParseTargets(engine: Engine, urls: seq<string>): (r: Result<seq<Uri>, CompileError>)
    ensures r.Ok? ==> |r.value| == |urls| && forall i | 0 <= i < |urls| :: ParseTarget(engine, urls[i]) == Ok(r.value[i])
    ensures r.Err? ==> r.error in {BadTargetUrl, TargetWithoutScheme, TargetWithoutHost}
  {
    if urls == [] then Ok([])
    else
      match ParseTarget(engine, urls[0])
      case Err(e) => Err(e)
      case Ok(uri) =>
        match ParseTargets(engine, urls[1..])
        case Err(e) => Err(e)
        case Ok(rest) => Ok([uri] + rest)
  }

  /** Exactly one of a single target and a list must be given; each text in it becomes one absolute target. */
  function CompileTargets(engine: Engine, def: ProxyDef): (r: Result<seq<Uri>, CompileError>)
    ensures r.Ok? ==> (def.targets.Some? && def.targets.value != []) != (def.target.Some? && Trim(def.target.value) != "")
    ensures r.Ok? ==> forall i | 0 <= i < |r.value| ::
              var urls := if def.targets.Some? && def.targets.value != [] then def.targets.value else [def.target.value];
              |urls| == |r.value| && engine.parseUri(Trim(urls[i])) == Some(r.value[i])
    ensures r.Ok? ==> r.value != [] && forall u <- r.value :: u.scheme.Some? && u.authority.Some?
    ensures r.Err? ==> !r.error.BadGlob? && !r.error.BadStripPrefix?
  {
    var hasTarget := def.target.Some? && Trim(def.target.value) != "";
    var hasTargets := def.targets.Some? && def.targets.value != [];
    if hasTarget && hasTargets then Err(TargetAndTargets)
    else if !hasTarget && !hasTargets then Err(NoTarget)
    else if hasTarget then ParseTargets(engine, [def.target.value])
    else ParseTargets(engine, def.targets.value)
  }

  /** A target text is a URI with scheme and authority. */
  predicate IsAbsolute(parsed: Option<Uri>) {
    parsed.Some? && parsed.value.scheme.Some? && parsed.value.authority.Some?
  }

  /** What is wrong with a target text that is not. */
  function TargetFault(parsed: Option<Uri>): CompileError {
    if parsed.None? then BadTargetUrl else if parsed.value.scheme.None? then TargetWithoutScheme else TargetWithoutHost
  }

  /** The first text that is not absolute. */
  ghost predicate FirstFaulty(engine: Engine, urls: seq<string>, i: nat) {
    && i < |urls| && !IsAbsolute(engine.parseUri(Trim(urls[i])))
    && forall j | 0 <= j < i :: IsAbsolute(engine.parseUri(Trim(urls[j])))
  }

  lemma {:induction false} ParseTargetsIff(engine: Engine, urls: seq<string>) returns (i: nat)
    ensures i <= |urls| && forall j | 0 <= j < i :: IsAbsolute(engine.parseUri(Trim(urls[j])))
    ensures ParseTargets(engine, urls).Ok? <==> i == |urls|
    ensures i < |urls| ==> FirstFaulty(engine, urls, i)
                           && ParseTargets(engine, urls) == Err(TargetFault(engine.parseUri(Trim(urls[i]))))
  {
    hide Trim;
    i := 0;
    if urls != [] && IsAbsolute(engine.parseUri(Trim(urls[0]))) {
      i := ParseTargetsIff(engine, urls[1..]);
      i := i + 1;
    }
  }

  /** When a definition's targets are accepted, and which fault is reported when they are not. */
  lemma TargetsAcceptedIff(engine: Engine, def: ProxyDef)
    ensures var single, several := def.target.Some? && Trim(def.target.value) != "", def.targets.Some? && def.targets.value != [];
            var urls := if several then def.targets.value else if single then [def.target.value] else [];
            var r := CompileTargets(engine, def);
            && (r == Err(TargetAndTargets) <==> single && several)
            && (r == Err(NoTarget) <==> !single && !several)
            && (r.Ok? <==> single != several && forall url <- urls :: IsAbsolute(engine.parseUri(Trim(url))))
            && (single != several ==> forall i: nat | FirstFaulty(engine, urls, i) :: r == Err(TargetFault(engine.parseUri(Trim(urls[i])))))
  {
    hide Trim, ParseTargets;
    var single, several := def.target.Some? && Trim(def.target.value) != "", def.targets.Some? && def.targets.value != [];
    var urls := if several then def.targets.value else if single then [def.target.value] else [];
    var first := ParseTargetsIff(engine, urls);
    forall i: nat | FirstFaulty(engine, urls, i)
      ensures i == first
    {
    }
    assert first < |urls| ==> urls[first] in urls;
  }

  /** Templates are aligned with the targets, so every index the balancer picks has one. */
  ghost predicate Aligned(rule: ProxyRule) {
    && |rule.templates| == |rule.targets| > 0
    && forall i | 0 <= i < |rule.targets| :: TemplateOf(rule.targets[i], rule.stripPrefix) == Ok(rule.templates[i])
  }

  function TemplatesOf(targets: seq<Uri>, stripPrefix: Option<string>): (r: seq<Template>)
    requires forall u <- targets :: u.scheme.Some? && u.authority.Some?
    ensures |r| == |targets| && forall i | 0 <= i < |r| :: TemplateOf(targets[i], stripPrefix) == Ok(r[i])
  {
    seq(|targets|, i requires 0 <= i < |targets| => TemplateOf(targets[i], stripPrefix).value)
  }

  function CompileRule(engine: Engine, def: ProxyDef): (r: Result<ProxyRule, CompileError>)
    ensures r.Ok? ==> Aligned(r.value)
  {
    match engine.glob(def.source)
    case None => Err(BadGlob)
    case Some(matches) =>
      if def.stripPrefix.Some? && !StartsWithSlash(def.stripPrefix.value) then Err(BadStripPrefix)
      else
        match CompileTargets(engine, def)
        case Err(e) => Err(e)
        case Ok(targets) =>
          Ok(ProxyRule(def.host, def.source, matches, targets, def.stripPrefix, TemplatesOf(targets, def.stripPrefix)))
  }

  /** A definition's glob is judged before its strip-prefix, and that before its targets. */
  lemma RuleFaults(engine: Engine, def: ProxyDef)
    ensures var r, prefix := CompileRule(engine, def), def.stripPrefix;
            && (r == Err(BadGlob) <==> engine.glob(def.source).None?)
            && (r == Err(BadStripPrefix) <==>
                  engine.glob(def.source).Some? && prefix.Some? && (prefix.value == "" || prefix.value[0] != '/'))
            && (engine.glob(def.source).Some? && (prefix.Some? ==> prefix.value != "" && prefix.value[0] == '/') ==>
                  (r.Ok? <==> CompileTargets(engine, def).Ok?) && (r.Err? ==> r.error == CompileTargets(engine, def).error))
  {
    hide CompileTargets, TemplatesOf;
  }

  /** `rules` are the compiled `defs`, one for one and in order. */
  ghost predicate Compiled(engine: Engine, defs: seq<ProxyDef>, rules: seq<ProxyRule>) {
    |rules| == |defs| && forall i | 0 <= i < |defs| :: CompileRule(engine, defs[i]) == Ok(rules[i])
  }

  method CompileProxyRules(engine: Engine, defs: seq<ProxyDef>) returns (r: Result<seq<ProxyRule>, CompileError>)
    ensures r.Ok? ==> Compiled(engine, defs, r.value)
    ensures r.Err? ==> exists i :: 0 <= i < |defs| && CompileRule(engine, defs[i]) == Err(r.error)
                                   && forall j | 0 <= j < i :: CompileRule(engine, defs[j]).Ok?
  {
    hide CompileTargets, TemplatesOf, ParseTargets;
    var rules: seq<ProxyRule> := [];
    for k := 0 to |defs|
      invariant |rules| == k && forall i | 0 <= i < k :: CompileRule(engine, defs[i]) == Ok(rules[i])
    {
      var def := defs[k];
      var glob := engine.glob(def.source);
      if glob.None? {
        return Err(BadGlob);
      }
      if def.stripPrefix.Some? && !StartsWithSlash(def.stripPrefix.value) {
        return Err(BadStripPrefix);
      }
      var targets := CompileTargets(engine, def);
      if targets.Err? {
        return Err(targets.error);
      }
      rules := rules + [ProxyRule(def.host, def.source, glob.value, targets.value, def.stripPrefix,
                                  TemplatesOf(targets.value, def.stripPrefix))];
    }
    r := Ok(rules);
  }

  /** The definitions in merge order: TOML, then the control plane's. */
  function Merged(toml: Option<seq<ProxyDef>>, remote: Option<seq<ProxyDef>>): seq<ProxyDef> {
    (if toml.Some? then toml.value else []) + (if remote.Some? then remote.value else [])
  }

  /**
   * TOML definitions, then the control plane's, sorted stably by specificity and compiled. Rules resolved
   * before are kept, and without any definition there are none.
   */
  method ResolveRules(engine: Engine, proxies: Option<seq<ProxyRule>>, toml: Option<seq<ProxyDef>>, remote: Option<seq<ProxyDef>>)
    returns (r: Result<Option<seq<ProxyRule>>, CompileError>)
    ensures proxies.Some? ==> r == Ok(proxies)
    ensures proxies.None? && Merged(toml, remote) == [] ==> r == Ok(None)
    ensures proxies.None? && Merged(toml, remote) != [] && r.Ok? ==>
              && r.value.Some?
              && Compiled(engine, StableSort(Merged(toml, remote), SpecificityKey), r.value.value)
    ensures r.Err? ==> exists def <- Merged(toml, remote) :: CompileRule(engine, def) == Err(r.error)
  {
    if proxies.Some? {
      return Ok(proxies);
    }
    var defs := if toml.Some? then toml.value else [];
    if remote.Some? {
      defs := defs + remote.value;
    }
    if defs == [] {
      return Ok(None);
    }
    ghost var merged := defs;
    assert merged == Merged(toml, remote);
    defs := StableSort(defs, SpecificityKey);
    var compiled := CompileProxyRules(engine, defs);
    match compiled
    case Ok(rules) => return Ok(Some(rules));
    case Err(e) =>
      SortIsStable(merged, SpecificityKey);
      ghost var i :| 0 <= i < |defs| && CompileRule(engine, defs[i]) == Err(e);
      assert defs[i] in multiset(merged);
      return Err(e);
  }

  // ----- Matching -----

  function LastColon(s: string): (r: Option<nat>)
    ensures r.Some? ==> r.value < |s| && s[r.value] == ':' && forall i | r.value < i < |s| :: s[i] != ':'
    ensures r.None? ==> ':' !in s
  {
    if s == "" then None
    else if s[|s| - 1] == ':' then Some(|s| - 1)
    else LastColon(s[..|s| - 1])
  }

  /** `parse::<u16>` accepts: an optional plus sign, then digits of a number below 65536. */
  predicate IsPort(s: string) {
    var digits := if s != "" && s[0] == '+' then s[1..] else s;
    digits != "" && AllDigits(digits) && Number(digits) < 0x1_0000
  }

  predicate AllDigits(s: string) {
    forall i | 0 <= i < |s| :: '0' <= s[i] <= '9'
  }

  function Number(digits: string): nat
    requires AllDigits(digits)
  {
    if digits == "" then 0 else 10 * Number(digits[..|digits| - 1]) + (digits[|digits| - 1] as int - '0' as int)
  }

  function WithoutPort(header: string): string {
    match LastColon(header)
    case None => header
    case Some(k) => if IsPort(header[k + 1..]) then header[..k] else header
  }

  /** The host of a request: of its target, else of a readable `Host` header, without the port. */
  function RequestHost(authorityHost: Option<string>, hostHeader: Option<HeaderValue>): Option<string> {
    if authorityHost.Some? then authorityHost
    else if hostHeader.None? || !Visible(hostHeader.value) then None
    else Some(WithoutPort(hostHeader.value))
  }

  lemma PortHasNoColon(port: string)
    requires IsPort(port)
    ensures forall i | 0 <= i < |port| :: port[i] != ':'
  {
    var digits := if port[0] == '+' then port[1..] else port;
    forall i | 0 <= i < |port|
      ensures port[i] != ':'
    {
      assert port[0] == '+' && i > 0 ==> port[i] == digits[i - 1];
    }
  }

  lemma LastColonIs(s: string, k: nat)
    requires k < |s| && s[k] == ':' && forall i | k < i < |s| :: s[i] != ':'
    ensures LastColon(s) == Some(k)
  {
    assert s[k] in s;
  }

  /** A host with a port added gives back the host, whatever colons the host itself has. */
  lemma PortIsTakenOff(host: string, port: string)
    requires IsPort(port) && Visible(host + ":" + port)
    ensures RequestHost(None, Some(host + ":" + port)) == Some(host)
  {
    PortHasNoColon(port);
    var header := host + ":" + port;
    assert header[|host|] == ':';
    assert forall i | |host| < i < |header| :: header[i] == port[i - |host| - 1];
    LastColonIs(header, |host|);
    assert header[|host| + 1..] == port && header[..|host|] == host;
  }

  /** A request's authority decides; else a `Host` header, of which only what is behind its last colon can go, if a port. */
  lemma HostOf(authority: string, header: HeaderValue)
    ensures RequestHost(Some(authority), Some(header)) == Some(authority) && RequestHost(None, None) == None
    ensures RequestHost(None, Some(header)).None? <==> exists c :: c in header && !(c == '\t' || ' ' <= c <= '~')
    ensures Visible(header) && ':' !in header ==> RequestHost(None, Some(header)) == Some(header)
    ensures Visible(header) && (forall k | 0 <= k < |header| && header[k] == ':' :: !IsPort(header[k + 1..])) ==>
              RequestHost(None, Some(header)) == Some(header)
  {
  }

  /** Up to four digits are a port, six and more without a leading zero are not; nor is text with anything else in it. */
  lemma PortsAreShortNumbers(s: string)
    ensures 0 < |s| <= 4 && AllDigits(s) ==> IsPort(s)
    ensures |s| >= 6 && AllDigits(s) && s[0] != '0' ==> !IsPort(s)
    ensures s == "" || (exists i :: 0 < i < |s| && !('0' <= s[i] <= '9')) ==> !IsPort(s)
  {
    if AllDigits(s) && s != "" {
      NumberBounds(s);
    }
  }

  function Power10(n: nat): (p: nat)
    ensures p > 0
  {
    if n == 0 then 1 else 10 * Power10(n - 1)
  }

  lemma {:induction false} NumberBounds(s: string)
    requires AllDigits(s) && s != ""
    ensures Number(s) < Power10(|s|) && (s[0] != '0' ==> Number(s) >= Power10(|s| - 1))
    ensures |s| <= 4 ==> Number(s) < 10000
    ensures |s| >= 6 && s[0] != '0' ==> Number(s) >= 100000
  {
    var init := s[..|s| - 1];
    assert Number("") == 0 && Power10(0) == 1;
    if init != "" {
      NumberBounds(init);
    }
  }

  predicate Accepts(rule: ProxyRule, host: string, path: string) {
    (rule.host.None? || rule.host.value == host) && rule.matches(path)
  }

  /** The request is accepted by the rule of a definition, if that has one. */
  predicate AcceptedBy(engine: Engine, def: ProxyDef, host: string, path: string) {
    CompileRule(engine, def).Ok? && Accepts(CompileRule(engine, def).value, host, path)
  }

  /** The first rule that accepts the request; a request without a host matches nothing. */
  method FindRule(rules: seq<ProxyRule>, host: Option<string>, path: string) returns (r: Option<nat>)
    ensures r.Some? ==> host.Some? && r.value < |rules| && Accepts(rules[r.value], host.value, path)
                        && forall i | 0 <= i < r.value :: !Accepts(rules[i], host.value, path)
    ensures r.None? ==> host.None? || forall rule <- rules :: !Accepts(rule, host.value, path)
    ensures r.Some? ==> r.value < |rules| && rules[r.value].host in {None, host} && rules[r.value].matches(path)
    ensures forall i | 0 <= i < if r.Some? then r.value else |rules| ::
              host.None? || rules[i].host !in {None, host} || !rules[i].matches(path)
  {
    if host.None? {
      return None;
    }
    for k := 0 to |rules|
      invariant forall i | 0 <= i < k :: !Accepts(rules[i], host.value, path)
    {
      if rules[k].host.Some? && rules[k].host.value != host.value {
        continue;
      }
      if rules[k].matches(path) {
        return Some(k);
      }
    }
    r := None;
  }

  /** What `FindRule` returns on the rules resolved from `defs`. */
  ghost predicate Found(engine: Engine, defs: seq<ProxyDef>, rules: seq<ProxyRule>, host: string, path: string, k: nat) {
    && Compiled(engine, StableSort(defs, SpecificityKey), rules)
    && k < |rules| && Accepts(rules[k], host, path)
    && forall i | 0 <= i < k :: !Accepts(rules[i], host, path)
  }

  /**
   * The compiled list is a stable permutation of the merged definitions, and it is the only one sorted by
   * specificity, whatever sorting algorithm is used.
   */
  lemma ResolvedOrder(defs: seq<ProxyDef>, other: seq<ProxyDef>)
    ensures StablePermutation(defs, StableSort(defs, SpecificityKey), SpecificityKey)
    ensures Sorted(other, SpecificityKey) && StablePermutation(defs, other, SpecificityKey)
            ==> other == StableSort(defs, SpecificityKey)
  {
    SortIsStable(defs, SpecificityKey);
    if Sorted(other, SpecificityKey) && StablePermutation(defs, other, SpecificityKey) {
      StableSortIsUnique(defs, other, SpecificityKey);
    }
  }

  /**
   * The rule found is that of a definition for any host or exactly this one, whose own glob matches the path; it has
   * that definition's strip-prefix and its targets, parsed.
   */
  lemma FoundDefinition(engine: Engine, defs: seq<ProxyDef>, rules: seq<ProxyRule>, host: string, path: string, k: nat)
    returns (def: ProxyDef)
    requires Found(engine, defs, rules, host, path, k)
    ensures def in defs && def.source == rules[k].source && def.stripPrefix == rules[k].stripPrefix
    ensures def.host.None? || def.host.value == host
    ensures engine.glob(def.source).Some? && engine.glob(def.source).value(path)
    ensures var texts := if def.targets.Some? && def.targets.value != [] then def.targets.value
                         else if def.target.Some? then [def.target.value] else [];
            |rules[k].targets| == |texts| && forall i | 0 <= i < |texts| :: engine.parseUri(Trim(texts[i])) == Some(rules[k].targets[i])
  {
    hide StableSort, CompileTargets, Wildcards, TemplatesOf;
    var d := EarliestWins(engine, defs, rules, host, path, k);
    def := defs[d];
    TargetsOf(engine, def);
  }

  lemma TargetsOf(engine: Engine, def: ProxyDef)
    requires CompileTargets(engine, def).Ok?
    ensures var texts := if def.targets.Some? && def.targets.value != [] then def.targets.value
                         else if def.target.Some? then [def.target.value] else [];
            var uris := CompileTargets(engine, def).value;
            |uris| == |texts| && forall i | 0 <= i < |texts| :: engine.parseUri(Trim(texts[i])) == Some(uris[i])
  {
    assert CompileTargets(engine, def).value[0].scheme.Some?;
  }

  /** When no rule is found, no definition is for this host and matches the path. */
  lemma NoneFound(engine: Engine, defs: seq<ProxyDef>, rules: seq<ProxyRule>, host: string, path: string, def: ProxyDef)
    requires Compiled(engine, StableSort(defs, SpecificityKey), rules) && def in defs
    requires forall rule <- rules :: rule.host !in {None, Some(host)} || !rule.matches(path)
    ensures def.host !in {None, Some(host)} || (engine.glob(def.source).Some? && !engine.glob(def.source).value(path))
  {
    var i := DefIsCompiled(engine, defs, rules, def);
    hide StableSort, CompileTargets;
    assert rules[i] in rules;
  }

  /** No definition that accepts the request is strictly above the one whose rule is found. */
  lemma FoundIsTop(engine: Engine, defs: seq<ProxyDef>, rules: seq<ProxyRule>, host: string, path: string, k: nat, def: ProxyDef)
    requires Found(engine, defs, rules, host, path, k)
    requires def in defs && AcceptedBy(engine, def, host, path)
    ensures StableSort(defs, SpecificityKey)[k].source == rules[k].source
    ensures !Above(SpecificityKey(def), SpecificityKey(StableSort(defs, SpecificityKey)[k]))
  {
    hide StableSort, Wildcards, CompileTargets;
    var sorted := StableSort(defs, SpecificityKey);
    SortIsStable(defs, SpecificityKey);
    assert def in multiset(sorted);
    var i :| 0 <= i < |sorted| && sorted[i] == def;
    assert CompileRule(engine, sorted[i]) == Ok(rules[i]);
    assert CompileRule(engine, sorted[k]) == Ok(rules[k]);
    if i > k {
      assert !Above(SpecificityKey(sorted[i]), SpecificityKey(sorted[k]));
    }
  }

  /** The rule found has the longest source of all rules that accept the request, in whatever order they were defined. */
  lemma FoundIsLongest(engine: Engine, defs: seq<ProxyDef>, rules: seq<ProxyRule>, host: string, path: string, k: nat, def: ProxyDef)
    requires Found(engine, defs, rules, host, path, k)
    requires def in defs && AcceptedBy(engine, def, host, path)
    ensures |def.source| <= |rules[k].source|
  {
    hide StableSort, Wildcards, CompileRule, Found;
    FoundIsTop(engine, defs, rules, host, path, k, def);
  }

  /** Among rules of equal length that accept the request, the rule found has the most wildcards. */
  lemma TiesGoToMoreWildcards(engine: Engine, defs: seq<ProxyDef>, rules: seq<ProxyRule>, host: string, path: string, k: nat, def: ProxyDef)
    requires Found(engine, defs, rules, host, path, k)
    requires def in defs && AcceptedBy(engine, def, host, path)
    requires |def.source| == |rules[k].source|
    ensures Wildcards(def.source) <= Wildcards(rules[k].source)
  {
    hide StableSort, Wildcards, CompileRule, Found;
    FoundIsTop(engine, defs, rules, host, path, k, def);
  }

  /** Among definitions level in length and wildcards, the one merged first is found. */
  lemma EarliestWins(engine: Engine, defs: seq<ProxyDef>, rules: seq<ProxyRule>, host: string, path: string, k: nat)
    returns (d: nat)
    requires Found(engine, defs, rules, host, path, k)
    ensures d < |defs| && CompileRule(engine, defs[d]) == Ok(rules[k]) && rules[k].source == defs[d].source
    ensures AcceptedBy(engine, defs[d], host, path)
    ensures forall j | 0 <= j < d && SpecificityKey(defs[j]) == SpecificityKey(defs[d]) :: !AcceptedBy(engine, defs[j], host, path)
  {
    hide StableSort, Wildcards, CompileTargets;
    var sorted := StableSort(defs, SpecificityKey);
    var accepted := (def: ProxyDef) => AcceptedBy(engine, def, host, path);
    forall i | 0 <= i <= k
      ensures CompileRule(engine, sorted[i]) == Ok(rules[i])
    {
    }
    d := FirstOfSortedIsFirst(defs, SpecificityKey, accepted, k);
    assert forall j | 0 <= j < d && SpecificityKey(defs[j]) == SpecificityKey(defs[d]) :: !accepted(defs[j]);
  }

  /** A definition that competes with the rule found: it accepts the request and its source is as long. */
  predicate Competes(engine: Engine, def: ProxyDef, host: string, path: string, length: nat) {
    AcceptedBy(engine, def, host, path) && |def.source| == length
  }

  /** No competitor has fewer wildcards than the source found. */
  ghost predicate HasFewest(engine: Engine, defs: seq<ProxyDef>, host: string, path: string, found: string) {
    forall def <- defs | Competes(engine, def, host, path, |found|) :: Wildcards(found) <= Wildcards(def.source)
  }

  /** All competitors have the same number of wildcards. */
  ghost predicate AllLevel(engine: Engine, defs: seq<ProxyDef>, host: string, path: string, length: nat) {
    forall a, b | a in defs && b in defs && Competes(engine, a, host, path, length) && Competes(engine, b, host, path, length) ::
      Wildcards(a.source) == Wildcards(b.source)
  }

  /** The comment's promise, that the fewest wildcards win, is kept exactly when the competitors all have equally many. */
  lemma FewestWildcardsWinIff(engine: Engine, defs: seq<ProxyDef>, rules: seq<ProxyRule>, host: string, path: string, k: nat)
    requires Found(engine, defs, rules, host, path, k)
    ensures HasFewest(engine, defs, host, path, rules[k].source) <==> AllLevel(engine, defs, host, path, |rules[k].source|)
  {
    hide StableSort, Wildcards, CompileRule, Compiled;
    var d := EarliestWins(engine, defs, rules, host, path, k);
    assert defs[d] in defs && Competes(engine, defs[d], host, path, |rules[k].source|);
    forall def | def in defs && Competes(engine, def, host, path, |rules[k].source|)
      ensures Wildcards(def.source) <= Wildcards(rules[k].source)
    {
      TiesGoToMoreWildcards(engine, defs, rules, host, path, k, def);
    }
  }

  /** It is broken by any two competitors that differ, in whichever order they are merged. */
  lemma MoreWildcardsWin(engine: Engine, fewer: ProxyDef, more: ProxyDef, host: string, path: string)
    requires |fewer.source| == |more.source| && Wildcards(fewer.source) < Wildcards(more.source)
    requires AcceptedBy(engine, fewer, host, path) && AcceptedBy(engine, more, host, path)
    ensures var rules := [CompileRule(engine, more).value, CompileRule(engine, fewer).value];
            && Found(engine, [fewer, more], rules, host, path, 0) && Found(engine, [more, fewer], rules, host, path, 0)
            && rules[0].source == more.source
  {
    hide Wildcards, CompileTargets;
    var f, m := [fewer], [more];
    assert [fewer, more][1..] == m && [more, fewer][1..] == f;
    assert StableSort(m, SpecificityKey) == Insert(more, [], SpecificityKey);
    assert StableSort(f, SpecificityKey) == Insert(fewer, [], SpecificityKey);
    assert Insert(fewer, m, SpecificityKey) == [more] + Insert(fewer, [], SpecificityKey);
    assert StableSort([fewer, more], SpecificityKey) == [more, fewer] == StableSort([more, fewer], SpecificityKey);
  }

  /** So a TOML definition beats every control-plane definition it is level with. */
  lemma TomlWins(engine: Engine, toml: seq<ProxyDef>, remote: seq<ProxyDef>, rules: seq<ProxyRule>, host: string, path: string,
                 k: nat, t: nat)
    requires Found(engine, Merged(Some(toml), Some(remote)), rules, host, path, k)
    requires t < |toml| && AcceptedBy(engine, toml[t], host, path)
    requires |toml[t].source| == |rules[k].source| && Wildcards(toml[t].source) == Wildcards(rules[k].source)
    ensures exists d :: 0 <= d < |toml| && CompileRule(engine, toml[d]) == Ok(rules[k])
  {
    hide CompileRule, Found, Wildcards;
    var defs := Merged(Some(toml), Some(remote));
    var d := EarliestWins(engine, defs, rules, host, path, k);
    assert defs[t] == toml[t] && SpecificityKey(defs[t]) == SpecificityKey(defs[d]);
    assert d <= t;
    assert defs[d] == toml[d];
  }

  // ----- Subtree globs: a literal prefix, a slash and two stars -----

  predicate Literal(s: string) {
    forall c <- s :: c !in "*?[]{}\\,!"
  }

  function Below(prefix: string): string {
    prefix + "/**"
  }

  /** What the glob engine does with the subtree glob of a literal prefix: it matches everything under the prefix. */
  ghost predicate HandlesBelow(engine: Engine) {
    forall p | Literal(p) ::
      && engine.glob(Below(p)).Some?
      && forall path :: engine.glob(Below(p)).value(path) <==> p + "/" <= path
  }

  /** A definition for a subtree accepts every request for that subtree and its host. */
  lemma SubtreeAccepts(engine: Engine, prefix: string, def: ProxyDef, host: string, path: string)
    requires HandlesBelow(engine) && Literal(prefix) && prefix + "/" <= path
    requires def.source == Below(prefix) && (def.host.None? || def.host.value == host) && CompileRule(engine, def).Ok?
    ensures AcceptedBy(engine, def, host, path)
  {
    hide CompileTargets, TemplatesOf;
    assert engine.glob(Below(prefix)).value(path);
  }

  /** A rule for the subtree of `p/q` always beats every rule for the subtree of `p` on the paths under `p/q/`. */
  lemma LongerPrefixWins(engine: Engine, defs: seq<ProxyDef>, rules: seq<ProxyRule>, host: string, path: string, k: nat,
                         p: string, q: string, def: ProxyDef)
    requires Found(engine, defs, rules, host, path, k) && HandlesBelow(engine)
    requires Literal(p + "/" + q) && p + "/" + q + "/" <= path
    requires def in defs && def.source == Below(p + "/" + q) && (def.host.None? || def.host.value == host)
    ensures rules[k].source != Below(p)
  {
    assert |Below(p)| == |p| + 3 && |Below(p + "/" + q)| == |p + "/" + q| + 3;
    assert |p + "/" + q| > |p|;
    var i := DefIsCompiled(engine, defs, rules, def);
    hide *;
    SubtreeAccepts(engine, p + "/" + q, def, host, path);
    FoundIsLongest(engine, defs, rules, host, path, k, def);
  }

  lemma DefIsCompiled(engine: Engine, defs: seq<ProxyDef>, rules: seq<ProxyRule>, def: ProxyDef) returns (i: nat)
    requires Compiled(engine, StableSort(defs, SpecificityKey), rules) && def in defs
    ensures i < |rules| && CompileRule(engine, def) == Ok(rules[i])
  {
    var sorted := StableSort(defs, SpecificityKey);
    SortIsStable(defs, SpecificityKey);
    assert def in multiset(sorted);
    i :| 0 <= i < |sorted| && sorted[i] == def;
  }

  // ----- From request to upstream URI -----

  datatype ForwardError = IndexOutOfRange | Unbuildable(error: UriError)

  /** `upstream_uri_for_rule`: one pick, then the template of that index. */
  method UpstreamUriForRule(engine: Engine, rule: ProxyRule, balancer: ProxyBalancer<Uri>, pathAndQuery: Option<string>)
    returns (r: Result<string, ForwardError>)
    requires Aligned(rule) && balancer.targets == rule.targets
    modifies balancer
    ensures balancer.next == Succ(old(balancer.next))
    ensures var index := old(balancer.next) % |rule.targets|;
            match Build(engine.parseUri, rule.templates[index], pathAndQuery)
            case Ok(uri) => r == Ok(uri)
            case Err(e) => r == Err(Unbuildable(e))
  {
    var index := balancer.NextIndex();
    if index >= |rule.templates| {
      // the out-of-range error; templates and targets are aligned
      assert false;
    }
    var uri := Build(engine.parseUri, rule.templates[index], pathAndQuery);
    match uri
    case Ok(u) => r := Ok(u);
    case Err(e) => r := Err(Unbuildable(e));
  }

  /**
   * End to end: for every rule set, a request whose found rule is for the subtree of `p` with strip-prefix `p` is forwarded, at
   * every counter value, to the picked target's origin and base path followed by the request's own path behind
   * `p` and its query, unless the URI parser refuses that text: neither the index error nor the strip-prefix error
   * can occur.
   */
  lemma ForwardedUnderPrefix(engine: Engine, defs: seq<ProxyDef>, rules: seq<ProxyRule>, host: string, path: string, k: nat,
                             p: string, query: Option<string>, counter: Word)
    requires Found(engine, defs, rules, host, path, k) && HandlesBelow(engine)
    requires Literal(p) && rules[k].source == Below(p) && rules[k].stripPrefix == Some(p)
    ensures var rule := rules[k];
            && Aligned(rule)
            && var index := counter % |rule.targets|;
               && index < |rule.templates|
               && var target, t := if query.None? then path else path + "?" + query.value, rule.targets[index];
                  && t.scheme.Some? && t.authority.Some? && p <= target
                  && var uri := t.scheme.value + "://" + t.authority.value
                                + TrimEndSlashes(if t.path == "" then "/" else t.path) + target[|p|..];
                     Build(engine.parseUri, rule.templates[index], Some(target))
                     == if engine.parseUri(uri).Some? then Ok(uri) else Err(InvalidUpstreamUri)
  {
    hide StableSort, CompileTargets;
    var rule := rules[k];
    assert CompileRule(engine, StableSort(defs, SpecificityKey)[k]) == Ok(rule);
    assert engine.glob(Below(p)).value(path);
    var index := counter % |rule.targets|;
    assert TemplateOf(rule.targets[index], rule.stripPrefix) == Ok(rule.templates[index]);
    StripNeverFailsUnderPrefix(engine.parseUri, rule.templates[index], p, path, query);
    assert path[..|p| + 1] == p + "/";
  }
}
