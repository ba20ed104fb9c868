/** Conditional request headers: src/conditional_headers.rs. Dates are HTTP dates in whole seconds. */
module Conditional {
  import opened Wrappers
  import opened ByteRange

  datatype IfRange = Date(seconds: nat) | EntityTag

  datatype Conditionals = Conditionals(
    ifModifiedSince: Option<nat>,
    ifUnmodifiedSince: Option<nat>,
    ifRange: Option<IfRange>,
    range: Option<Range>)

  datatype Verdict = NoBody(status: nat) | WithBody(range: Option<Range>)

  const NOT_MODIFIED := 304
  const PRECONDITION_FAILED := 412

  function Check(c: Conditionals, lastModified: Option<nat>): Verdict {
    if c.ifUnmodifiedSince.Some? && !PreconditionPasses(c.ifUnmodifiedSince.value, lastModified) then
      NoBody(PRECONDITION_FAILED)
    else if c.ifModifiedSince.Some? && Unmodified(c.ifModifiedSince.value, lastModified) then
      NoBody(NOT_MODIFIED)
    else if c.ifRange.Some? && !CanRange(c.ifRange.value, lastModified) then
      WithBody(None)
    else
      WithBody(c.range)
  }

  predicate PreconditionPasses(since: nat, lastModified: Option<nat>) {
    lastModified.Some? && since >= lastModified.value
  }

  predicate Unmodified(since: nat, lastModified: Option<nat>) {
    lastModified.Some? && !(since < lastModified.value)
  }

  predicate CanRange(validator: IfRange, lastModified: Option<nat>) {
    validator.Date? && lastModified.Some? && !(validator.seconds < lastModified.value)
  }

  /** The file is known to be no newer than `since`. */
  predicate NotNewer(lastModified: Option<nat>, since: nat) {
    lastModified.Some? && lastModified.value <= since
  }

  /** The ranges a reply has to honour: none under an `If-Range` that is not a date the file is no newer than. */
  function Honoured(c: Conditionals, lastModified: Option<nat>): Option<Range> {
    if c.ifRange.Some? && (c.ifRange.value.EntityTag? || !NotNewer(lastModified, c.ifRange.value.seconds)) then None else c.range
  }

  /**
   * RFC 7232, section 6, for all headers at once: when each verdict arises. A file without a date passes no
   * precondition and never counts as unmodified; an entity tag never matches, as files are served without one.
   */
  lemma VerdictIff(c: Conditionals, lastModified: Option<nat>)
    ensures var failed := c.ifUnmodifiedSince.Some? && !NotNewer(lastModified, c.ifUnmodifiedSince.value);
            var unmodified := c.ifModifiedSince.Some? && NotNewer(lastModified, c.ifModifiedSince.value);
            && (Check(c, lastModified) == NoBody(PRECONDITION_FAILED) <==> failed)
            && (Check(c, lastModified) == NoBody(NOT_MODIFIED) <==> unmodified && !failed)
            && (Check(c, lastModified) == WithBody(Honoured(c, lastModified)) <==> !unmodified && !failed)
  {
  }
}
