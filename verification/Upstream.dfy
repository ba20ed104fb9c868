/**
 * Upstream URIs: `upstream_uri_template` (src/settings/mod.rs) and `build_upstream_uri_from_template`
 * (src/proxy.rs).
 */
module Upstream {
  import opened Wrappers
  import opened Text

  datatype Uri = Uri(scheme: Option<string>, authority: Option<string>, path: string)

  datatype Template = Template(origin: string, basePath: string, stripPrefix: Option<string>)

  datatype UriError = NoAuthority | NoScheme | InvalidPathAfterStripPrefix | InvalidUpstreamUri

  /** The URI parser, which the model takes as given. */
  type UriParser = string -> Option<Uri>

  function TemplateOf(base: Uri, stripPrefix: Option<string>): (r: Result<Template, UriError>)
    ensures r.Ok? <==> base.authority.Some? && base.scheme.Some?
  {
    if base.authority.None? then Err(NoAuthority)
    else if base.scheme.None? then Err(NoScheme)
    else Ok(Template(base.scheme.value + "://" + base.authority.value, if base.path == "" then "/" else base.path, stripPrefix))
  }

  /** Path and query of a request target; a target without either counts as "/". */
  function PathAndQuery(path: string, query: Option<string>): string {
    if query.None? then path else path + "?" + query.value
  }

  predicate Strips(t: Template, target: string) {
    t.stripPrefix.Some? && t.stripPrefix.value <= target
  }

  function Stripped(t: Template, target: string): string {
    if Strips(t, target) then target[|t.stripPrefix.value|..] else target
  }

  function Build(parse: UriParser, t: Template, pathAndQuery: Option<string>): Result<string, UriError> {
    var target := if pathAndQuery.Some? then pathAndQuery.value else "/";
    var rest := Stripped(t, target);
    if rest != "" && !StartsWithSlash(rest) then Err(InvalidPathAfterStripPrefix)
    else
      var path := if rest == "" then "/" else rest;
      var merged := if t.basePath == "" || t.basePath == "/" then path else TrimEndSlashes(t.basePath) + path;
      var full := t.origin + merged;
      if parse(full).None? then Err(InvalidUpstreamUri) else Ok(full)
  }

  /** What of an incoming target is forwarded. */
  function Rest(t: Template, target: string): string {
    if Stripped(t, target) == "" then "/" else Stripped(t, target)
  }

  /** The part of an incoming target that is dropped. */
  function Prefix(t: Template, target: string): string {
    if Strips(t, target) then t.stripPrefix.value else ""
  }

  /** The upstream URI a target should be sent to. */
  function UpstreamUri(t: Template, target: string): string {
    t.origin + TrimEndSlashes(t.basePath) + Rest(t, target)
  }

  /**
   * The URI built is always origin, base path without trailing slashes, and rest, as long as the parser takes it; and
   * the incoming target is the dropped prefix followed by that rest, or the bare prefix when the rest is the lone
   * slash added for it. It fails otherwise only when the prefix ends inside a segment of the target.
   */
  lemma BuildShape(parse: UriParser, t: Template, target: string)
    ensures var torn := exists r :: target == Prefix(t, target) + r && r != "" && r[0] != '/';
            Build(parse, t, Some(target)) ==
              if torn then Err(InvalidPathAfterStripPrefix)
              else if parse(UpstreamUri(t, target)).None? then Err(InvalidUpstreamUri)
              else Ok(UpstreamUri(t, target))
    ensures Build(parse, t, Some(target)).Ok? ==>
              var rest := Rest(t, target);
              && StartsWithSlash(rest)
              && (target == Prefix(t, target) + rest || (rest == "/" && target == Prefix(t, target)))
    ensures Build(parse, t, None) == Build(parse, t, Some("/"))
  {
    var rest := Stripped(t, target);
    assert target == Prefix(t, target) + rest;
    assert TrimEndSlashes("/") == TrimEndSlashes("/"[..0]) == "";
    var path := Rest(t, target);
    assert t.origin + (TrimEndSlashes(t.basePath) + path) == t.origin + TrimEndSlashes(t.basePath) + path;
    assert "" + path == path;
    forall r | target == Prefix(t, target) + r
      ensures r == rest
    {
      assert target[|Prefix(t, target)|..] == r;
    }
  }

  /** Two targets are forwarded to the same URI exactly when the same rest remains of them. */
  lemma SameUriIff(parse: UriParser, t: Template, a: string, b: string)
    requires Build(parse, t, Some(a)).Ok? && Build(parse, t, Some(b)).Ok?
    ensures Build(parse, t, Some(a)) == Build(parse, t, Some(b)) <==> Rest(t, a) == Rest(t, b)
  {
    BuildShape(parse, t, a);
    BuildShape(parse, t, b);
    var head := t.origin + TrimEndSlashes(t.basePath);
    assert (head + Rest(t, a))[|head|..] == Rest(t, a);
    assert (head + Rest(t, b))[|head|..] == Rest(t, b);
  }

  /** With the dropped prefix known to be there, every target that goes on behind it is recoverable. */
  lemma TargetIsRecoverable(parse: UriParser, t: Template, a: string, b: string)
    requires Build(parse, t, Some(a)).Ok? && Build(parse, t, Some(a)) == Build(parse, t, Some(b))
    requires Strips(t, a) == Strips(t, b)
    ensures a == b || {a, b} == {Prefix(t, a), Prefix(t, a) + "/"}
  {
    SameUriIff(parse, t, a, b);
    BuildShape(parse, t, a);
    BuildShape(parse, t, b);
  }

  /** A request under `prefix/` never meets the strip-prefix error, with or without a query. */
  lemma StripNeverFailsUnderPrefix(parse: UriParser, t: Template, prefix: string, path: string, query: Option<string>)
    requires t.stripPrefix == Some(prefix) && prefix + "/" <= path
    ensures var target := PathAndQuery(path, query);
            && prefix <= target && UpstreamUri(t, target) == t.origin + TrimEndSlashes(t.basePath) + target[|prefix|..]
            && Build(parse, t, Some(target))
               == if parse(UpstreamUri(t, target)).Some? then Ok(UpstreamUri(t, target)) else Err(InvalidUpstreamUri)
  {
    var target := PathAndQuery(path, query);
    assert path[..|prefix| + 1] == prefix + "/";
    assert target[|prefix|] == '/';
    assert prefix <= target;
    BuildShape(parse, t, target);
    assert target[|prefix|..][0] == '/';
  }

  /**
   * The text sent upstream, case by case: behind the strip-prefix if the target begins with it, else the whole target;
   * a lone slash for nothing; and the base path in front without its trailing slashes, if it is more than a slash.
   */
  lemma ForwardedText(parse: UriParser, t: Template, target: string, rest: string)
    requires match t.stripPrefix
             case None => rest == target
             case Some(p) => if |p| <= |target| && target[..|p|] == p then target == p + rest else rest == target
    ensures var path := if rest == "" then "/" else rest;
            var full := if t.basePath == "" || t.basePath == "/" then t.origin + path
                        else t.origin + (TrimEndSlashes(t.basePath) + path);
            Build(parse, t, Some(target)) ==
              if path[0] != '/' then Err(InvalidPathAfterStripPrefix)
              else if parse(full).None? then Err(InvalidUpstreamUri) else Ok(full)
  {
    assert Stripped(t, target) == rest;
  }
}
