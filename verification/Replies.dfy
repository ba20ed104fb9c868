/**
 * File replies: `response_body` (src/response.rs) from disk and `MemFile::response_body`
 * (src/mem_cache/cache.rs) from memory, both proved against one specification, `FileReply`.
 */
module Replies {
  import opened Wrappers
  import opened Bytes
  import opened ByteRange
  import opened Conditional
  import opened Streaming

  const OK := 200
  const PARTIAL_CONTENT := 206
  const RANGE_NOT_SATISFIABLE := 416
  const INTERNAL_SERVER_ERROR := 500

  datatype Metadata = Metadata(len: u64, mtimeNanos: Option<nat>, blockSize: nat)

  /** `Last-Modified` in whole seconds; a file stamped with the UNIX epoch has none. */
  function Modified(meta: Metadata): Option<nat> {
    match meta.mtimeNanos
    case None => None
    case Some(ns) => if ns == 0 then None else Some(ns / 1_000_000_000)
  }

  datatype ContentRange = Bytes(first: nat, last: nat, total: nat) | Unsatisfied(total: nat)

  /** `ContentRange::bytes(start..end, total)`; an empty range at zero has no last byte to name. */
  function ContentRangeBytes(start: nat, end: nat, total: nat): Option<ContentRange> {
    if end == 0 then None else Some(Bytes(start, end - 1, total))
  }

  datatype Head = Head(
    status: nat,
    contentRange: Option<ContentRange>,
    contentLength: Option<nat>,
    contentType: Option<string>,
    acceptRanges: bool,
    lastModified: Option<nat>)

  function EmptyHead(status: nat): Head {
    Head(status, None, None, None, false, None)
  }

  /** The meaning of a reply: its head, and the state of the stream that will deliver its body. */
  datatype Reply = Reply(head: Head, body: Option<StreamState>)

  function FileReply(content: seq<byte>, len: u64, bufSize: nat, contentType: string, lastModified: Option<nat>,
                     conditionals: Conditionals, opts: Option<TempOpts>): Reply
  {
    match Check(conditionals, lastModified)
    case NoBody(status) => Reply(EmptyHead(status), None)
    case WithBody(range) =>
      match BytesRange(range, len)
      case Err(_) => Reply(EmptyHead(RANGE_NOT_SATISFIABLE).(contentRange := Some(Unsatisfied(len))), None)
      case Ok(Span(start, end)) =>
        var whole := end - start == len;
        Reply(Head(if whole then OK else PARTIAL_CONTENT,
                   if whole then None else Some(Bytes(start, end - 1, len)),
                   Some(end - start), Some(contentType), true, lastModified),
              Some(Opened(content, start, end, bufSize, opts, len)))
  }

  datatype Body = Empty | Plain(file: FileStream) | Filling(mem: MemCacheFileStream)

  ghost function BodyView(b: Body): Option<StreamState>
    reads match b case Empty => {} case Plain(f) => {f.reader as object} case Filling(m) => {m as object, m.reader}
  {
    match b
    case Empty => None
    case Plain(f) => Some(f.View())
    case Filling(m) => Some(m.View())
  }

  datatype Response = Response(head: Head, body: Body)

  /** A path with what `Path::to_str` makes of it: its text, or nothing when it is not UTF-8. */
  datatype FilePath = FilePath(text: Option<string>, contentType: string)

  /** The options a cacheable file's stream carries. */
  function CacheOpts(path: FilePath, meta: Metadata, maxFileSize: Option<u64>): Option<TempOpts> {
    if maxFileSize.Some? && meta.len <= maxFileSize.value && path.text.Some? then
      Some(TempOpts(path.text.value, path.contentType, Modified(meta)))
    else None
  }

  /** The first spec of a header is honoured; `ByteRange.AcceptedIff` says when. */
  ghost predicate Satisfiable(specs: Range, len: u64) {
    && specs != []
    && !Overflows(specs[0], len)
    && ((exists i: nat :: Selects(specs[0], len, i)) || StartsAtEnd(specs[0], len))
  }

  /** How many positions lie in [start, end) is what decides whether all positions do. */
  lemma WholeIff(range: Option<Range>, len: u64, span: Span)
    requires BytesRange(range, len) == Ok(span)
    ensures span.end - span.start == len <==> forall i: nat | i < len :: Wanted(range, len, i)
  {
    if span.end - span.start != len {
      var i := if span.start > 0 then 0 else len - 1;
      assert !Wanted(range, len, i);
    }
  }

  /**
   * The status of a file reply, for all validators and ranges at once: 412 and 304 as the validators say; else 416
   * when a range has to be honoured and cannot be, 206 when some byte of the file is not asked for, 200 otherwise.
   */
  lemma StatusIff(content: seq<byte>, len: u64, bufSize: nat, contentType: string, lastModified: Option<nat>,
                  c: Conditionals, opts: Option<TempOpts>)
    ensures var status := FileReply(content, len, bufSize, contentType, lastModified, c, opts).head.status;
            var failed := c.ifUnmodifiedSince.Some? && !NotNewer(lastModified, c.ifUnmodifiedSince.value);
            var unmodified := c.ifModifiedSince.Some? && NotNewer(lastModified, c.ifModifiedSince.value);
            var range := Honoured(c, lastModified);
            var served := range.None? || Satisfiable(range.value, len);
            var everything := forall i: nat | i < len :: Wanted(range, len, i);
            && (status == PRECONDITION_FAILED <==> failed)
            && (status == NOT_MODIFIED <==> unmodified && !failed)
            && (status == RANGE_NOT_SATISFIABLE <==> !unmodified && !failed && !served)
            && (status == PARTIAL_CONTENT <==> !unmodified && !failed && served && !everything)
            && (status == OK <==> !unmodified && !failed && served && everything)
  {
    hide Check, ResolveSpec, Selects, Wanted, Overflows, StartsAtEnd;
    VerdictIff(c, lastModified);
    var range := Honoured(c, lastModified);
    if range.Some? && range.value != [] {
      AcceptedIff(range.value, len);
    }
    var r := BytesRange(range, len);
    if r.Ok? {
      WholeIff(range, len, r.value);
    }
  }

  // ----- What a head says, without reference to how it is computed -----

  /** A date in whole seconds is the one a time stamp in nanoseconds falls into; the UNIX epoch itself counts as none. */
  ghost predicate DatedBy(lastModified: Option<nat>, nanos: Option<nat>) {
    && (lastModified.None? <==> nanos.None? || nanos == Some(0))
    && (lastModified.Some? ==> lastModified.value * 1_000_000_000 <= nanos.value < (lastModified.value + 1) * 1_000_000_000)
  }

  /** A file stamped with `nanos` was last changed no later than within the second `since`. */
  predicate UnchangedSince(nanos: Option<nat>, since: nat) {
    nanos.Some? && nanos.value != 0 && nanos.value < (since + 1) * 1_000_000_000
  }

  /** The ranges that count for a file stamped with `nanos`. */
  function CountingRange(c: Conditionals, nanos: Option<nat>): Option<Range> {
    match c.ifRange
    case None => c.range
    case Some(EntityTag) => None
    case Some(Date(seconds)) => if UnchangedSince(nanos, seconds) then c.range else None
  }

  /** When a file of `len` bytes stamped with `nanos` is answered with each status. */
  ghost predicate StatusFits(status: nat, len: u64, nanos: Option<nat>, c: Conditionals) {
    var failed := c.ifUnmodifiedSince.Some? && !UnchangedSince(nanos, c.ifUnmodifiedSince.value);
    var unmodified := c.ifModifiedSince.Some? && UnchangedSince(nanos, c.ifModifiedSince.value);
    var range := CountingRange(c, nanos);
    var served := range.None? || Satisfiable(range.value, len);
    && status in {200, 206, 304, 412, 416}
    && (status == 412 <==> failed)
    && (status == 304 <==> unmodified && !failed)
    && (status == 416 <==> !unmodified && !failed && !served)
    && (status == 200 ==> forall i: nat | i < len :: Wanted(range, len, i))
    && (status == 206 ==> exists i: nat :: i < len && !Wanted(range, len, i))
  }

  /** The fields beside status and length: all about the file with a body, none without, but the length for 416. */
  ghost predicate FieldsFit(head: Head, contentType: string, len: u64) {
    if head.status == 200 || head.status == 206 then
      && head.contentType == Some(contentType) && head.acceptRanges
      && (head.contentRange.None? <==> head.status == 200)
    else
      && head.contentType == None && head.contentLength == None && head.lastModified == None && !head.acceptRanges
      && head.contentRange == if head.status == 416 then Some(Unsatisfied(len)) else None
  }

  lemma ModifiedIsDate(meta: Metadata, since: nat)
    ensures DatedBy(Modified(meta), meta.mtimeNanos)
    ensures NotNewer(Modified(meta), since) <==> UnchangedSince(meta.mtimeNanos, since)
  {
  }

  lemma FieldsOfReply(content: seq<byte>, len: u64, bufSize: nat, contentType: string, lastModified: Option<nat>,
                      c: Conditionals, opts: Option<TempOpts>)
    ensures var reply := FileReply(content, len, bufSize, contentType, lastModified, c, opts);
            && FieldsFit(reply.head, contentType, len)
            && (reply.body.Some? <==> reply.head.status == 200 || reply.head.status == 206)
            && (reply.body.Some? ==> reply.head.lastModified == lastModified && reply.body.value.opts == opts)
  {
    hide ResolveSpec;
  }

  /** The status of a reply, over the file's time stamp. */
  lemma StatusOfReply(content: seq<byte>, meta: Metadata, bufSize: nat, contentType: string, c: Conditionals, opts: Option<TempOpts>)
    ensures StatusFits(FileReply(content, meta.len, bufSize, contentType, Modified(meta), c, opts).head.status,
                       meta.len, meta.mtimeNanos, c)
  {
    StatusIff(content, meta.len, bufSize, contentType, Modified(meta), c, opts);
    hide FileReply, Modified, NotNewer, UnchangedSince, Satisfiable, Wanted;
    forall since
      ensures NotNewer(Modified(meta), since) <==> UnchangedSince(meta.mtimeNanos, since)
    {
      ModifiedIsDate(meta, since);
    }
    assert Honoured(c, Modified(meta)) == CountingRange(c, meta.mtimeNanos);
    FieldsOfReply(content, meta.len, bufSize, contentType, Modified(meta), c, opts);
  }

  method DiskResponseBody(file: seq<byte>, path: FilePath, meta: Metadata, conditionals: Conditionals,
                          maxFileSize: Option<u64>, seekOk: bool)
    returns (r: Result<Response, nat>)
    ensures var spec := FileReply(file, meta.len, OptimalBufSize(meta.blockSize, meta.len), path.contentType,
                                  Modified(meta), conditionals, CacheOpts(path, meta, maxFileSize));
            match r
            case Ok(resp) => resp.head == spec.head && BodyView(resp.body) == spec.body
            case Err(status) => status == 500 && !seekOk && spec.body.Some?
    ensures r.Ok? ==>
              && StatusFits(r.value.head.status, meta.len, meta.mtimeNanos, conditionals)
              && FieldsFit(r.value.head, path.contentType, meta.len)
              && (r.value.body.Empty? <==> r.value.head.status !in {200, 206})
              && (!r.value.body.Empty? ==> DatedBy(r.value.head.lastModified, meta.mtimeNanos))
              && (r.value.body.Filling? <==> !r.value.body.Empty? && maxFileSize.Some? && meta.len <= maxFileSize.value && path.text.Some?)
              && (r.value.body.Filling? ==>
                    r.value.body.mem.memOpts == Some(TempOpts(path.text.value, path.contentType, r.value.head.lastModified)))
  {
    StatusOfReply(file, meta, OptimalBufSize(meta.blockSize, meta.len), path.contentType, conditionals,
                  CacheOpts(path, meta, maxFileSize));
    FieldsOfReply(file, meta.len, OptimalBufSize(meta.blockSize, meta.len), path.contentType, Modified(meta), conditionals,
                  CacheOpts(path, meta, maxFileSize));
    ModifiedIsDate(meta, 0);
    hide StatusFits, FieldsFit, DatedBy;
    var len := meta.len;
    var modified := Modified(meta);
    match Check(conditionals, modified)
    case NoBody(status) =>
      return Ok(Response(EmptyHead(status), Empty));
    case WithBody(range) =>
      var bufSize := OptimalBufSize(meta.blockSize, meta.len);
      match BytesRange(range, len)
      case Err(_) =>
        return Ok(Response(EmptyHead(RANGE_NOT_SATISFIABLE).(contentRange := Some(Unsatisfied(len))), Empty));
      case Ok(Span(start, end)) =>
        if !seekOk {
          return Err(INTERNAL_SERVER_ERROR);
        }
        var subLen := end - start;
        var reader := new Reader(file, start, subLen);
        var body: Body;
        if maxFileSize.Some? && len <= maxFileSize.value && path.text.Some? {
          var opts := TempOpts(path.text.value, path.contentType, modified);
          var stream := new MemCacheFileStream(reader, bufSize, Some(opts), Some(MemBuf([], len)));
          body := Filling(stream);
        } else {
          var stream := new FileStream(reader, bufSize);
          body := Plain(stream);
        }
        var head := EmptyHead(OK);
        if subLen != len {
          head := head.(status := PARTIAL_CONTENT);
          var contentRange := ContentRangeBytes(start, end, len);
          if contentRange.None? {
            // the reply for an unrepresentable range; never reached
            assert false;
          }
          head := head.(contentRange := contentRange);
          len := subLen;
        }
        head := head.(contentLength := Some(len));
        head := head.(contentType := Some(path.contentType));
        head := head.(acceptRanges := true);
        if modified.Some? {
          head := head.(lastModified := modified);
        }
        return Ok(Response(head, body));
  }

  /** `len() as u64`. */
  function Length(data: seq<byte>): u64 {
    |data| % 0x1_0000_0000_0000_0000
  }

  method MemResponseBody(m: MemFile, conditionals: Conditionals) returns (resp: Response)
    ensures var spec := FileReply(m.data, Length(m.data), m.bufSize, m.contentType, m.lastModified, conditionals, None);
            resp.head == spec.head && BodyView(resp.body) == spec.body
    ensures FieldsFit(resp.head, m.contentType, Length(m.data)) && resp.head.status in {200, 206, 304, 412, 416}
    ensures (resp.body.Empty? <==> resp.head.status !in {200, 206}) && !resp.body.Filling?
    ensures !resp.body.Empty? ==> resp.head.lastModified == m.lastModified
  {
    FieldsOfReply(m.data, Length(m.data), m.bufSize, m.contentType, m.lastModified, conditionals, None);
    StatusIff(m.data, Length(m.data), m.bufSize, m.contentType, m.lastModified, conditionals, None);
    hide FieldsFit;
    var modified := m.lastModified;
    match Check(conditionals, modified)
    case NoBody(status) =>
      return Response(EmptyHead(status), Empty);
    case WithBody(range) =>
      var len := Length(m.data);
      match BytesRange(range, len)
      case Err(_) =>
        return Response(EmptyHead(RANGE_NOT_SATISFIABLE).(contentRange := Some(Unsatisfied(len))), Empty);
      case Ok(Span(start, end)) =>
        var subLen := end - start;
        var reader := new Reader(m.data, start, subLen);
        var stream := new FileStream(reader, m.bufSize);
        var head := EmptyHead(OK);
        if subLen != len {
          head := head.(status := PARTIAL_CONTENT);
          var contentRange := ContentRangeBytes(start, end, len);
          if contentRange.None? {
            assert false;
          }
          head := head.(contentRange := contentRange);
          len := subLen;
        }
        head := head.(contentLength := Some(len));
        head := head.(contentType := Some(m.contentType));
        head := head.(acceptRanges := true);
        if modified.Some? {
          head := head.(lastModified := modified);
        }
        return Response(head, Plain(stream));
  }

  /** `get_or_acquire`: a reply from the store, or nothing, in which case the caller reads the disk. */
  method GetOrAcquire(store: CacheStore, path: FilePath, conditionals: Conditionals) returns (r: Option<Response>)
    ensures r.Some? <==> path.text.Some? && path.text.value in store.entries
    ensures r.Some? ==>
      var m := store.entries[path.text.value];
      var spec := FileReply(m.data, Length(m.data), m.bufSize, m.contentType, m.lastModified, conditionals, None);
      r.value.head == spec.head && BodyView(r.value.body) == spec.body
  {
    r := None;
    if path.text.Some? && path.text.value in store.entries {
      var resp := MemResponseBody(store.entries[path.text.value], conditionals);
      r := Some(resp);
    }
  }

  /** `span` holds exactly the bytes asked for, and the head describes it: length, and 206 iff it is not everything. */
  ghost predicate Describes(head: Head, span: Span, range: Option<Range>, len: u64) {
    && span.start <= span.end <= len
    && (forall i: nat :: span.start <= i < span.end <==> Wanted(range, len, i))
    && head.contentLength == Some(span.end - span.start)
    && head.status == (if span.end - span.start == len then OK else PARTIAL_CONTENT)
    && (span.end == 0 ==> len == 0)
    && head.contentRange == (if span.end - span.start == len then None else ContentRangeBytes(span.start, span.end, len))
  }

  /** A reply's body is a fresh stream over the slice its head describes. */
  lemma ReplyDescribes(content: seq<byte>, len: u64, bufSize: nat, contentType: string, lastModified: Option<nat>,
                       conditionals: Conditionals, opts: Option<TempOpts>) returns (span: Span)
    ensures var reply := FileReply(content, len, bufSize, contentType, lastModified, conditionals, opts);
            reply.body.Some? ==>
              && Check(conditionals, lastModified).WithBody?
              && Describes(reply.head, span, Check(conditionals, lastModified).range, len)
              && reply.body == Some(Opened(content, span.start, span.end, bufSize, opts, len))
  {
    hide Check, ResolveSpec, Wanted;
    span := Span(0, 0);
    match Check(conditionals, lastModified) {
      case NoBody(_) =>
      case WithBody(range) =>
        if BytesRange(range, len).Ok? {
          span := BytesRange(range, len).value;
        }
    }
  }

  /**
   * A reply with a body delivers exactly the bytes asked for, under any reads; `Content-Length` counts them;
   * and the status is 206, with a `Content-Range`, exactly when they are not the whole file.
   */
  lemma ReplyIsExact(content: seq<byte>, blockSize: nat, contentType: string, lastModified: Option<nat>,
                     conditionals: Conditionals, opts: Option<TempOpts>, schedule: seq<Delivery>) returns (span: Span)
    requires |content| <= U64_MAX
    ensures var reply := FileReply(content, |content|, OptimalBufSize(blockSize, |content|), contentType,
                                   lastModified, conditionals, opts);
            reply.body.Some? ==>
              && Check(conditionals, lastModified).WithBody?
              && Describes(reply.head, span, Check(conditionals, lastModified).range, |content|)
              && Drain(reply.body.value, schedule).delivered <= content[span.start..span.end]
              && (Successes(schedule) >= span.end - span.start ==>
                    Drain(reply.body.value, schedule).delivered == content[span.start..span.end])
  {
    hide FileReply, Check, Wanted, ContentRangeBytes, Drain, Successes, Opened, OptimalBufSize;
    var len: u64 := |content|;
    var bufSize := OptimalBufSize(blockSize, len);
    span := ReplyDescribes(content, len, bufSize, contentType, lastModified, conditionals, opts);
    if FileReply(content, len, bufSize, contentType, lastModified, conditionals, opts).body.Some? {
      DrainDelivers(content, span.start, span.end, blockSize, opts, schedule);
    }
  }

  /**
   * `Content-Range` names a non-empty range inside the file (RFC 7233, section 4.2) except for a spec that
   * starts exactly at the end of a non-empty file, where the last byte named lies before the first.
   */
  lemma ContentRangeWellFormedIff(content: seq<byte>, len: u64, bufSize: nat, contentType: string,
                                  lastModified: Option<nat>, conditionals: Conditionals, opts: Option<TempOpts>)
    ensures var head := FileReply(content, len, bufSize, contentType, lastModified, conditionals, opts).head;
            head.status == PARTIAL_CONTENT ==>
              var range := Check(conditionals, lastModified).range;
              && range.Some? && range.value != []
              && head.contentRange.Some? && head.contentRange.value.Bytes? && head.contentRange.value.total == len
              && (head.contentRange.value.first <= head.contentRange.value.last < len <==> !StartsAtEnd(range.value[0], len))
  {
  }

  /** It does occur: bytes 10 to 9 of 10. */
  lemma ContentRangeOfNothing(content: seq<byte>, bufSize: nat, contentType: string, opts: Option<TempOpts>)
    ensures var reply := FileReply(content, 10, bufSize, contentType, None,
                                   Conditionals(None, None, None, Some([Spec(Included(10), Included(20))])), opts);
            reply.head.status == PARTIAL_CONTENT && reply.head.contentRange == Some(Bytes(10, 9, 10))
  {
  }
}
