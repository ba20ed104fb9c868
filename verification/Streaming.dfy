/**
 * Body streams: `FileStream` (src/fs/stream.rs) and `MemCacheFileStream` (src/mem_cache/stream.rs).
 *
 * What the operating system does at one `read` is a parameter of the poll, so every statement below holds
 * for all short reads and all failures.
 */
module Streaming {
  import opened Wrappers
  import opened Bytes
  import opened ByteRange

  datatype IoError = IoError

  /** One `read`: it fails, or it is willing to hand over at most `most` bytes (but at least one, if there is one). */
  datatype Delivery = Fails | Delivers(most: nat)

  function Min(a: nat, b: nat): nat {
    if a < b then a else b
  }

  function Max(a: nat, b: nat): nat {
    if a < b then b else a
  }

  const DEFAULT_READ_BUF_SIZE: nat := 4096

  /** `blockSize` is what the file system reports. */
  function OptimalBufSize(blockSize: nat, len: nat): (n: nat)
    ensures n <= len && (n == 0 <==> len == 0)
    ensures n == len || (n >= 4096 && n >= blockSize && n in {4096, blockSize})
  {
    Min(Max(blockSize, DEFAULT_READ_BUF_SIZE), len)
  }

  /** A file positioned at `pos` of which at most `limit` further bytes may be read (`Read::take`). */
  datatype Cursor = Cursor(file: seq<byte>, pos: nat, limit: nat) {

    function Remaining(): nat {
      if pos <= |file| then Min(limit, |file| - pos) else 0
    }

    function Read(bufSize: nat, d: Delivery): (r: Result<seq<byte>, IoError>)
      ensures r.Ok? ==> |r.value| <= Min(bufSize, Remaining())
    {
      match d
      case Fails => Err(IoError)
      case Delivers(most) =>
        var room := Min(bufSize, Remaining());
        if room == 0 then Ok([]) else Ok(file[pos..pos + Max(1, Min(room, most))])
    }

    function Advance(n: nat): Cursor
      requires n <= Remaining()
    {
      this.(pos := pos + n, limit := limit - n)
    }
  }

  class Reader {
    const file: seq<byte>
    var pos: nat
    var limit: nat

    constructor (file: seq<byte>, start: nat, limit: nat)
      ensures View() == Cursor(file, start, limit)
    {
      this.file, this.pos, this.limit := file, start, limit;
    }

    function View(): Cursor
      reads this
    {
      Cursor(file, pos, limit)
    }

    method Read(bufSize: nat, d: Delivery) returns (r: Result<seq<byte>, IoError>)
      modifies this
      ensures r == old(View()).Read(bufSize, d)
      ensures View() == if r.Ok? then old(View()).Advance(|r.value|) else old(View())
    {
      r := View().Read(bufSize, d);
      if r.Ok? {
        pos, limit := pos + |r.value|, limit - |r.value|;
      }
    }
  }

  /** What a poll yields: end of stream, or a chunk, or an error. */
  type Item = Option<Result<seq<byte>, IoError>>

  datatype TempOpts = TempOpts(path: string, contentType: string, lastModified: Option<nat>)

  /** A growable buffer with its capacity. */
  datatype MemBuf = MemBuf(bytes: seq<byte>, capacity: nat) {
    function Put(chunk: seq<byte>): MemBuf {
      var grown := bytes + chunk;
      MemBuf(grown, if |grown| <= capacity then capacity else Max(2 * capacity, |grown|))
    }
  }

  datatype MemFile = MemFile(data: seq<byte>, bufSize: nat, contentType: string, lastModified: Option<nat>)

  /** The state of either stream; a plain `FileStream` has neither options nor buffer. */
  datatype StreamState = StreamState(cursor: Cursor, bufSize: nat, opts: Option<TempOpts>, buf: Option<MemBuf>)

  datatype Polled = Polled(next: StreamState, item: Item, insert: Option<MemFile>)

  function Poll(s: StreamState, d: Delivery): Polled {
    match s.cursor.Read(s.bufSize, d)
    case Err(e) => Polled(s, Some(Err(e)), None)
    case Ok(chunk) =>
      var next := s.(cursor := s.cursor.Advance(|chunk|));
      if chunk == [] then Polled(next, None, None)
      else if s.opts.None? || s.buf.None? then Polled(next, Some(Ok(chunk)), None)
      else
        var buf := s.buf.value.Put(chunk);
        if |buf.bytes| == buf.capacity then
          Polled(next.(buf := None), Some(Ok(chunk)),
                 Some(MemFile(buf.bytes, s.bufSize, s.opts.value.contentType, s.opts.value.lastModified)))
        else
          Polled(next.(buf := Some(buf)), Some(Ok(chunk)), None)
  }

  class FileStream {
    const reader: Reader
    const bufSize: nat

    constructor (reader: Reader, bufSize: nat)
      ensures this.reader == reader && this.bufSize == bufSize
    {
      this.reader, this.bufSize := reader, bufSize;
    }

    function View(): StreamState
      reads reader
    {
      StreamState(reader.View(), bufSize, None, None)
    }

    method PollNext(d: Delivery) returns (item: Item)
      modifies reader
      ensures Poll(old(View()), d) == Polled(View(), item, None)
    {
      var r := reader.Read(bufSize, d);
      match r
      case Ok(chunk) =>
        if |chunk| == 0 {
          item := None;
        } else {
          item := Some(Ok(chunk));
        }
      case Err(e) => item := Some(Err(e));
    }
  }

  /** The process-wide store, `CACHE_STORE`. */
  class CacheStore {
    var entries: map<string, MemFile>

    constructor ()
      ensures entries == map[]
    {
      entries := map[];
    }

    method Insert(path: string, file: MemFile)
      modifies this
      ensures entries == old(entries)[path := file]
    {
      entries := entries[path := file];
    }
  }

  class MemCacheFileStream {
    const reader: Reader
    const bufSize: nat
    var memOpts: Option<TempOpts>
    var memBuf: Option<MemBuf>

    constructor (reader: Reader, bufSize: nat, memOpts: Option<TempOpts>, memBuf: Option<MemBuf>)
      ensures this.reader == reader && this.bufSize == bufSize
      ensures this.memOpts == memOpts && this.memBuf == memBuf
    {
      this.reader, this.bufSize, this.memOpts, this.memBuf := reader, bufSize, memOpts, memBuf;
    }

    function View(): StreamState
      reads this, reader
    {
      StreamState(reader.View(), bufSize, memOpts, memBuf)
    }

    method PollNext(store: CacheStore, d: Delivery) returns (item: Item)
      modifies this, reader, store
      ensures var p := Poll(old(View()), d);
              && View() == p.next && item == p.item
              && store.entries == (if p.insert.None? then old(store.entries)
                                   else old(store.entries)[old(memOpts).value.path := p.insert.value])
    {
      var r := reader.Read(bufSize, d);
      match r
      case Ok(chunk) =>
        if |chunk| == 0 {
          item := None;
        } else {
          if memOpts.Some? && memBuf.Some? {
            memBuf := Some(memBuf.value.Put(chunk));
            if |memBuf.value.bytes| == memBuf.value.capacity {
              var data := memBuf.value.bytes;
              memBuf := None;
              var opts := memOpts.value;
              store.Insert(opts.path, MemFile(data, bufSize, opts.contentType, opts.lastModified));
            }
          }
          item := Some(Ok(chunk));
        }
      case Err(e) => item := Some(Err(e));
    }
  }

  // ----- What a stream delivers and inserts -----

  /** The stream was opened on [start, end) and has handed over `delivered` so far. */
  ghost predicate Delivering(s: StreamState, start: nat, end: nat, delivered: seq<byte>) {
    && start <= s.cursor.pos <= |s.cursor.file|
    && s.cursor.pos + s.cursor.limit == end
    && delivered == s.cursor.file[start..s.cursor.pos]
    && (s.bufSize > 0 || s.cursor.Remaining() == 0)
  }

  /** The caching side: a buffer of capacity `cap` still filling, or one insertion made; `cap` is the length it waits for. */
  ghost predicate Caching(s: StreamState, cap: nat, delivered: seq<byte>, inserts: seq<MemFile>) {
    if s.opts.None? then s.buf.None? && inserts == []
    else if s.buf.Some? then
      s.buf.value == MemBuf(delivered, cap) && inserts == [] && (|delivered| < cap || cap == 0)
    else
      && |delivered| == cap > 0
      && inserts == [MemFile(delivered, s.bufSize, s.opts.value.contentType, s.opts.value.lastModified)]
  }

  function Chunk(item: Item): seq<byte> {
    if item.Some? && item.value.Ok? then item.value.value else []
  }

  function AsSeq<T>(x: Option<T>): seq<T> {
    if x.Some? then [x.value] else []
  }

  lemma PollDelivers(s: StreamState, d: Delivery, start: nat, end: nat, delivered: seq<byte>)
    requires Delivering(s, start, end, delivered)
    ensures var p := Poll(s, d);
            && Delivering(p.next, start, end, delivered + Chunk(p.item))
            && p.next.cursor.file == s.cursor.file
            && (p.item.None? <==> d.Delivers? && s.cursor.Remaining() == 0)
            && (d.Delivers? ==> p.next.cursor.Remaining() <= if s.cursor.Remaining() == 0 then 0 else s.cursor.Remaining() - 1)
  {
    var p := Poll(s, d);
    assert delivered + Chunk(p.item) == s.cursor.file[start..p.next.cursor.pos];
  }

  lemma PollCaches(s: StreamState, d: Delivery, cap: nat, delivered: seq<byte>, inserts: seq<MemFile>)
    requires Caching(s, cap, delivered, inserts) && |delivered + Chunk(Poll(s, d).item)| <= cap
    ensures var p := Poll(s, d);
            var delivered' := delivered + Chunk(p.item);
            && Caching(p.next, cap, delivered', inserts + AsSeq(p.insert))
            && p.next.opts == s.opts
            && (p.insert.Some? <==> inserts == [] && s.opts.Some? && p.item.Some? && |delivered'| == cap && d.Delivers?)
  {
    var p := Poll(s, d);
    assert inserts + [] == inserts && delivered + [] == delivered;
    assert p.item.Some? && p.item.value.Ok? ==> d.Delivers? && Chunk(p.item) != [];
  }

  /** Every poll, short or failed, keeps both, and only a completed delivery ends the stream. */
  lemma PollKeeps(s: StreamState, d: Delivery, start: nat, end: nat, cap: nat, delivered: seq<byte>, inserts: seq<MemFile>)
    requires Delivering(s, start, end, delivered) && Caching(s, cap, delivered, inserts) && end - start <= cap
    ensures var p := Poll(s, d);
            var delivered' := delivered + Chunk(p.item);
            && Delivering(p.next, start, end, delivered')
            && Caching(p.next, cap, delivered', inserts + AsSeq(p.insert))
            && p.next.cursor.file == s.cursor.file && p.next.opts == s.opts
            && (p.item.None? <==> d.Delivers? && s.cursor.Remaining() == 0)
            && (d.Delivers? ==> p.next.cursor.Remaining() <= if s.cursor.Remaining() == 0 then 0 else s.cursor.Remaining() - 1)
            && (p.insert.Some? <==> inserts == [] && s.opts.Some? && p.item.Some? && |delivered'| == cap && d.Delivers?)
  {
    hide Poll, Caching, Chunk;
    PollDelivers(s, d, start, end, delivered);
    PollCaches(s, d, cap, delivered, inserts);
  }

  datatype Tally = Tally(next: StreamState, delivered: seq<byte>, inserts: seq<MemFile>)

  /** Polling once per element of the schedule. */
  function Drain(s: StreamState, schedule: seq<Delivery>): Tally
    decreases |schedule|
  {
    if schedule == [] then Tally(s, [], [])
    else
      var p := Poll(s, schedule[0]);
      var rest := Drain(p.next, schedule[1..]);
      Tally(rest.next, Chunk(p.item) + rest.delivered, AsSeq(p.insert) + rest.inserts)
  }

  function Successes(schedule: seq<Delivery>): nat {
    if schedule == [] then 0 else (if schedule[0].Delivers? then 1 else 0) + Successes(schedule[1..])
  }

  lemma {:induction false} DrainKeeps(s: StreamState, schedule: seq<Delivery>, start: nat, end: nat, cap: nat,
                                      delivered: seq<byte>, inserts: seq<MemFile>)
    requires Delivering(s, start, end, delivered) && Caching(s, cap, delivered, inserts) && end - start <= cap
    ensures var t := Drain(s, schedule);
            && Delivering(t.next, start, end, delivered + t.delivered)
            && Caching(t.next, cap, delivered + t.delivered, inserts + t.inserts)
            && t.next.cursor.file == s.cursor.file && t.next.opts == s.opts
            && t.next.cursor.Remaining() <= Max(Successes(schedule), s.cursor.Remaining()) - Successes(schedule)
    decreases |schedule|, 0
  {
    if schedule == [] {
      assert delivered + [] == delivered && inserts + [] == inserts;
    } else {
      PollKeeps(s, schedule[0], start, end, cap, delivered, inserts);
      var p := Poll(s, schedule[0]);
      DrainRest(p.next, p.item, p.insert, schedule[1..], start, end, cap, delivered, inserts);
    }
  }

  lemma {:induction false} DrainRest(next: StreamState, item: Item, insert: Option<MemFile>, schedule: seq<Delivery>,
                                     start: nat, end: nat, cap: nat, delivered: seq<byte>, inserts: seq<MemFile>)
    requires end - start <= cap
    requires Delivering(next, start, end, delivered + Chunk(item))
    requires Caching(next, cap, delivered + Chunk(item), inserts + AsSeq(insert))
    ensures var rest := Drain(next, schedule);
            var delivered' := delivered + (Chunk(item) + rest.delivered);
            var inserts' := inserts + (AsSeq(insert) + rest.inserts);
            && Delivering(rest.next, start, end, delivered')
            && Caching(rest.next, cap, delivered', inserts')
            && rest.next.cursor.file == next.cursor.file && rest.next.opts == next.opts
            && rest.next.cursor.Remaining() <= Max(Successes(schedule), next.cursor.Remaining()) - Successes(schedule)
    decreases |schedule|, 1
  {
    hide *;
    DrainKeeps(next, schedule, start, end, cap, delivered + Chunk(item), inserts + AsSeq(insert));
    var rest := Drain(next, schedule);
    assert delivered + Chunk(item) + rest.delivered == delivered + (Chunk(item) + rest.delivered);
    assert inserts + AsSeq(insert) + rest.inserts == inserts + (AsSeq(insert) + rest.inserts);
  }

  /** A freshly opened stream over [start, end) of `file`, caching under `opts` with a buffer for `cap` bytes. */
  function Opened(file: seq<byte>, start: nat, end: nat, bufSize: nat, opts: Option<TempOpts>, cap: nat): StreamState
    requires start <= end
  {
    StreamState(Cursor(file, start, end - start), bufSize, opts, if opts.Some? then Some(MemBuf([], cap)) else None)
  }

  /** What the two stream predicates say once no more than `left` bytes remain. */
  lemma Conclude(s: StreamState, start: nat, end: nat, cap: nat, delivered: seq<byte>, inserts: seq<MemFile>)
    requires Delivering(s, start, end, delivered) && Caching(s, cap, delivered, inserts) && start <= end
    ensures end <= |s.cursor.file| ==> delivered <= s.cursor.file[start..end]
    ensures end <= |s.cursor.file| && s.cursor.Remaining() == 0 ==> delivered == s.cursor.file[start..end]
    ensures s.cursor.Remaining() == 0 ==> |delivered| == Min(end, |s.cursor.file|) - start
    ensures inserts == if s.opts.Some? && |delivered| == cap > 0
                       then [MemFile(delivered, s.bufSize, s.opts.value.contentType, s.opts.value.lastModified)] else []
  {
    if end <= |s.cursor.file| {
      assert s.cursor.file[start..end][..s.cursor.pos - start] == delivered;
    }
  }

  /** A stream keeps its buffer size and options. */
  lemma {:induction false} DrainFrame(s: StreamState, schedule: seq<Delivery>)
    ensures var t := Drain(s, schedule); t.next.bufSize == s.bufSize && t.next.opts == s.opts
    decreases |schedule|
  {
    if schedule != [] {
      DrainFrame(Poll(s, schedule[0]).next, schedule[1..]);
    }
  }

  lemma DrainOpened(file: seq<byte>, start: nat, end: nat, bufSize: nat, opts: Option<TempOpts>, cap: nat, schedule: seq<Delivery>)
    returns (t: Tally)
    requires start <= end && start <= |file| && end - start <= cap && (bufSize > 0 || start == end)
    ensures t == Drain(Opened(file, start, end, bufSize, opts, cap), schedule)
    ensures Delivering(t.next, start, end, t.delivered) && Caching(t.next, cap, t.delivered, t.inserts)
    ensures t.next.cursor.file == file && t.next.bufSize == bufSize && t.next.opts == opts
    ensures Successes(schedule) >= end - start ==> t.next.cursor.Remaining() == 0
  {
    var s := Opened(file, start, end, bufSize, opts, cap);
    assert file[start..start] == [];
    DrainKeeps(s, schedule, start, end, cap, [], []);
    DrainFrame(s, schedule);
    t := Drain(s, schedule);
    assert [] + t.delivered == t.delivered && [] + t.inserts == t.inserts;
  }

  /** A stream with nothing left to read stays as it is. */
  lemma {:induction false} DrainPastEnd(s: StreamState, schedule: seq<Delivery>)
    requires s.cursor.Remaining() == 0
    ensures Drain(s, schedule) == Tally(s, [], [])
    decreases |schedule|
  {
    if schedule != [] {
      assert Poll(s, schedule[0]).next == s;
      DrainPastEnd(s, schedule[1..]);
    }
  }

  /** The part of [start, end) that lies inside `file`. */
  function Part(file: seq<byte>, start: nat, end: nat): seq<byte>
    requires start <= end
  {
    file[Min(start, |file|)..Min(end, |file|)]
  }

  lemma PartDelivered(served: seq<byte>, start: nat, end: nat, pos: nat, delivered: seq<byte>)
    requires start <= pos <= |served| && start <= end && pos <= end && delivered == served[start..pos]
    ensures delivered <= Part(served, start, end)
    ensures |delivered| == Min(end, |served|) - start ==> delivered == Part(served, start, end)
    ensures forall len | |delivered| == len >= end :: len <= |served| && delivered == served[..len]
  {
    assert Part(served, start, end)[..|delivered|] == delivered;
  }

  /**
   * Draining a stream over [start, end) of whatever file was opened, where `len` is the length of the file asked
   * for: under any reads the bytes handed over are an initial part of that slice, all of it after at most
   * `end - start` successful reads; and the cache gets the opened file's first `len` bytes when exactly these
   * have been handed over, and nothing otherwise.
   */
  lemma ServedBytes(served: seq<byte>, start: nat, end: nat, blockSize: nat, opts: Option<TempOpts>, len: nat, schedule: seq<Delivery>)
    requires start <= end <= len
    ensures var bufSize := OptimalBufSize(blockSize, len);
            var t := Drain(Opened(served, start, end, bufSize, opts, len), schedule);
            && t.delivered <= Part(served, start, end)
            && (Successes(schedule) >= end - start ==> t.delivered == Part(served, start, end))
            && t.inserts == if opts.Some? && 0 < len <= |served| && t.delivered == served[..len]
                            then [MemFile(served[..len], bufSize, opts.value.contentType, opts.value.lastModified)] else []
  {
    var bufSize := OptimalBufSize(blockSize, len);
    if start > |served| {
      DrainPastEnd(Opened(served, start, end, bufSize, opts, len), schedule);
    } else {
      var t := DrainOpened(served, start, end, bufSize, opts, len, schedule);
      Conclude(t.next, start, end, len, t.delivered, t.inserts);
      hide *;
      PartDelivered(served, start, end, t.next.cursor.pos, t.delivered);
    }
  }

  /** A file served under its own name: exactly the slice, and the cache gets the whole non-empty file or nothing. */
  lemma DrainDelivers(file: seq<byte>, start: nat, end: nat, blockSize: nat, opts: Option<TempOpts>, schedule: seq<Delivery>)
    requires start <= end <= |file|
    ensures var bufSize := OptimalBufSize(blockSize, |file|);
            var t := Drain(Opened(file, start, end, bufSize, opts, |file|), schedule);
            && t.delivered <= file[start..end]
            && (Successes(schedule) >= end - start ==> t.delivered == file[start..end])
            && t.inserts == if opts.Some? && t.delivered == file != []
                            then [MemFile(file, bufSize, opts.value.contentType, opts.value.lastModified)] else []
  {
    ServedBytes(file, start, end, blockSize, opts, |file|, schedule);
    assert file[..|file|] == file;
  }

  /** A complete download of another file than the one the length was taken from arrives whole iff it is not longer. */
  lemma VariantArrivesIff(served: seq<byte>, blockSize: nat, opts: Option<TempOpts>, len: nat, schedule: seq<Delivery>)
    requires Successes(schedule) >= len
    ensures Drain(Opened(served, 0, len, OptimalBufSize(blockSize, len), opts, len), schedule).delivered == served <==> |served| <= len
  {
    ServedBytes(served, 0, len, blockSize, opts, len, schedule);
    assert |served| <= len ==> Part(served, 0, len) == served;
  }

  /** A longer one is cut: of two bytes with an announced length of one, the first arrives. */
  lemma VariantIsCut(blockSize: nat, opts: Option<TempOpts>, first: byte, second: byte)
    ensures Drain(Opened([first, second], 0, 1, OptimalBufSize(blockSize, 1), opts, 1), [Delivers(1), Delivers(1)]).delivered == [first]
  {
    hide Drain;
    assert [Delivers(1), Delivers(1)][1..] == [Delivers(1)];
    assert Successes([Delivers(1)]) == 1;
    ServedBytes([first, second], 0, 1, blockSize, opts, 1, [Delivers(1), Delivers(1)]);
    assert Part([first, second], 0, 1) == [first];
  }

  /**
   * Draining a `MemCacheFileStream` until it ends or a read fails: it terminates, an ended body is exactly the
   * slice, and the store gains the file iff all `cap` bytes came, even if a read fails after that.
   */
  method DrainAll(stream: MemCacheFileStream, store: CacheStore, ghost start: nat, ghost end: nat, ghost cap: nat)
    returns (body: seq<byte>, failed: bool)
    requires Delivering(stream.View(), start, end, []) && Caching(stream.View(), cap, [], []) && end - start <= cap
    requires end <= |stream.reader.file|
    modifies stream, stream.reader, store
    ensures body <= stream.reader.file[start..end]
    ensures !failed ==> body == stream.reader.file[start..end]
    ensures store.entries == (if stream.memOpts.Some? && |body| == cap > 0
                              then old(store.entries)[stream.memOpts.value.path :=
                                   MemFile(body, stream.bufSize, stream.memOpts.value.contentType, stream.memOpts.value.lastModified)]
                              else old(store.entries))
    ensures stream.memOpts == old(stream.memOpts)
    ensures stream.memOpts.Some? ==> (stream.memBuf.None? <==> |body| == cap > 0)
  {
    body, failed := [], false;
    ghost var inserts: seq<MemFile> := [];
    while true
      invariant Delivering(stream.View(), start, end, body) && Caching(stream.View(), cap, body, inserts)
      invariant stream.memOpts == old(stream.memOpts)
      invariant store.entries == (if inserts == [] then old(store.entries)
                                  else old(store.entries)[stream.memOpts.value.path := inserts[0]])
      decreases stream.View().cursor.Remaining()
    {
      var delivery: Delivery := *;
      ghost var before := stream.View();
      PollKeeps(before, delivery, start, end, cap, body, inserts);
      var item := stream.PollNext(store, delivery);
      ghost var p := Poll(before, delivery);
      inserts := inserts + AsSeq(p.insert);
      body := body + Chunk(item);
      if item.None? || item.value.Err? {
        failed := item.Some?;
        break;
      }
    }
    Conclude(stream.View(), start, end, cap, body, inserts);
  }
}
