/** The `Range` header, as `bytes_range` in src/response.rs resolves it. */
module ByteRange {
  import opened Wrappers

  type u64 = x: int | 0 <= x < 0x1_0000_0000_0000_0000

  const U64_MAX: u64 := 0xFFFF_FFFF_FFFF_FFFF

  datatype Bound = Unbounded | Included(value: u64)

  /** One byte-range-spec: `a-b`, `a-`, `-b` (the last b bytes) or a bare `-`. */
  datatype Spec = Spec(first: Bound, last: Bound)

  /** The well-formed specs of a `Range` header in header order; ill-formed ones are already skipped. */
  type Range = seq<Spec>

  /** The half-open slice [start, end). */
  datatype Span = Span(start: u64, end: u64)

  datatype BadRange = BadRangeError

  /** Which byte positions of a representation of `len` bytes a spec asks for (RFC 7233, section 2.1). */
  predicate Selects(spec: Spec, len: u64, i: nat) {
    && i < len
    && match spec
       case Spec(Unbounded, Unbounded) => true
       case Spec(Included(a), Included(b)) => a <= i <= b
       case Spec(Included(a), Unbounded) => a <= i
       case Spec(Unbounded, Included(b)) => len <= i + b
  }

  /** The bytes a request wants: everything without a header, else what its first spec selects. */
  predicate Wanted(range: Option<Range>, len: u64, i: nat) {
    match range
    case None => i < len
    case Some(specs) => specs != [] && Selects(specs[0], len, i)
  }

  /** `b + 1` in release arithmetic, which wraps. */
  function Successor(b: u64): u64 {
    if b == U64_MAX then 0 else b + 1
  }

  function BytesRange(range: Option<Range>, maxLen: u64): (r: Result<Span, BadRange>)
    ensures r.Ok? ==> r.value.start <= r.value.end <= maxLen
    ensures r.Ok? ==> forall i: nat :: r.value.start <= i < r.value.end <==> Wanted(range, maxLen, i)
    ensures r.Ok? && r.value.end == 0 ==> maxLen == 0
  {
    match range
    case None => Ok(Span(0, maxLen))
    case Some(specs) => if specs == [] then Err(BadRangeError) else ResolveSpec(specs[0], maxLen)
  }

  function ResolveSpec(spec: Spec, maxLen: u64): Result<Span, BadRange> {
    match spec
    case Spec(Unbounded, Unbounded) => Clip(0, maxLen, maxLen)
    case Spec(Included(a), Included(b)) =>
      if a > b then Err(BadRangeError)
      else Clip(a, if b == maxLen then b else Successor(b), maxLen)
    case Spec(Included(a), Unbounded) => Clip(a, maxLen, maxLen)
    case Spec(Unbounded, Included(b)) =>
      if b > maxLen then Clip(0, maxLen, maxLen) else Clip(maxLen - b, maxLen, maxLen)
  }

  function Clip(start: u64, end: u64, maxLen: u64): Result<Span, BadRange> {
    if start < end && end <= maxLen then Ok(Span(start, end))
    else if start < end && start <= maxLen then Ok(Span(start, maxLen))
    else Err(BadRangeError)
  }

  /** `a-18446744073709551615`, whose exclusive end wraps to zero (unless the file has that very length). */
  predicate Overflows(spec: Spec, len: u64) {
    spec.first.Included? && spec.last == Included(0xFFFF_FFFF_FFFF_FFFF) && len != 0xFFFF_FFFF_FFFF_FFFF
  }

  /** A spec that starts exactly at the end of the file and reaches further: it selects nothing. */
  predicate StartsAtEnd(spec: Spec, len: u64) {
    spec.first == Included(len) && spec.last.Included? && len < spec.last.value
  }

  /**
   * When a header is honoured. RFC 7233 asks for "iff the first spec selects a byte"; the code departs
   * from that in two ways only, and this says exactly which.
   */
  lemma {:induction false} AcceptedIff(specs: Range, len: u64)
    requires specs != []
    ensures BytesRange(Some(specs), len).Ok?
       <==> !Overflows(specs[0], len)
            && ((exists i: nat :: Selects(specs[0], len, i)) || StartsAtEnd(specs[0], len))
  {
    var spec := specs[0];
    match spec
    case Spec(Unbounded, Unbounded) =>
      assert len > 0 ==> Selects(spec, len, 0);
    case Spec(Included(a), Included(b)) =>
      assert a <= b && a < len ==> Selects(spec, len, a);
    case Spec(Included(a), Unbounded) =>
      assert a < len ==> Selects(spec, len, a);
    case Spec(Unbounded, Included(b)) =>
      assert 0 < b && 0 < len ==> Selects(spec, len, len - 1);
  }

  /** The two departures do occur: a wanted byte is refused, and an empty slice is accepted. */
  lemma DeparturesOccur()
    ensures BytesRange(Some([Spec(Included(0), Included(U64_MAX))]), 10).Err?
    ensures Selects(Spec(Included(0), Included(U64_MAX)), 10, 3)
    ensures BytesRange(Some([Spec(Included(10), Included(20))]), 10) == Ok(Span(10, 10))
  {
  }
}
