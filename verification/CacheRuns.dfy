/**
 * The server's file replies as a transition system: requests, polls, dropped bodies and evictions in any
 * interleaving, on files that do not change and are served under their own names.
 */
module CacheRuns {
  import opened Wrappers
  import opened Bytes
  import opened ByteRange
  import opened Conditional
  import opened Streaming
  import opened Replies

  /** A served file; its text path is the key it is listed under in `Site.files`. */
  datatype File = File(content: seq<byte>, meta: Metadata, contentType: string, utf8: bool)

  datatype Site = Site(files: map<string, File>, maxFileSize: Option<u64>)

  ghost predicate Consistent(site: Site) {
    forall p <- site.files :: |site.files[p].content| == site.files[p].meta.len
  }

  datatype Event =
    | Request(path: string, conditionals: Conditionals, seekOk: bool)
    | PollBody(id: nat, delivery: Delivery)
    | DropBody(id: nat)
    | Evict(path: string)

  /** A response body in flight; `delivered` and `inserts` record its history. */
  datatype Live = Live(path: string, conditionals: Conditionals, stream: StreamState,
                       delivered: seq<byte>, inserts: seq<MemFile>, ended: bool)

  /** A reply already sent; `reply` is `None` for a failed seek. */
  datatype Sent = Sent(path: string, conditionals: Conditionals, reply: Option<Reply>)

  datatype State = State(store: map<string, MemFile>, bodies: map<nat, Live>, log: seq<Sent>)

  const INITIAL := State(map[], map[], [])

  function BufSize(f: File): nat {
    OptimalBufSize(f.meta.blockSize, f.meta.len)
  }

  function PathOf(path: string, f: File): FilePath {
    FilePath(if f.utf8 then Some(path) else None, f.contentType)
  }

  /** What `f` is answered with when the body carries `opts`. */
  function ReplyWith(f: File, c: Conditionals, opts: Option<TempOpts>): Reply {
    FileReply(f.content, f.meta.len, BufSize(f), f.contentType, Modified(f.meta), c, opts)
  }

  function DiskReply(site: Site, path: string, c: Conditionals): Reply
    requires path in site.files
  {
    var f := site.files[path];
    ReplyWith(f, c, CacheOpts(PathOf(path, f), f.meta, site.maxFileSize))
  }

  /** A store hit answers from memory; otherwise the disk is read. */
  function Answer(site: Site, store: map<string, MemFile>, path: string, c: Conditionals, seekOk: bool): Option<Reply>
    requires path in site.files
  {
    if site.maxFileSize.Some? && site.files[path].utf8 && path in store then
      var m := store[path];
      Some(FileReply(m.data, Length(m.data), m.bufSize, m.contentType, m.lastModified, c, None))
    else
      var reply := DiskReply(site, path, c);
      if reply.body.Some? && !seekOk then None else Some(reply)
  }

  /** A body after a poll. */
  function AfterPoll(b: Live, d: Delivery): Live {
    var p := Poll(b.stream, d);
    b.(stream := p.next, delivered := b.delivered + Chunk(p.item),
       inserts := b.inserts + AsSeq(p.insert), ended := b.ended || p.item.None?)
  }

  function Step(site: Site, st: State, e: Event): State {
    match e
    case Request(path, c, seekOk) =>
      if path !in site.files then st
      else
        var reply := Answer(site, st.store, path, c, seekOk);
        var log := st.log + [Sent(path, c, reply)];
        if reply.None? || reply.value.body.None? then st.(log := log)
        else st.(log := log, bodies := st.bodies[|st.log| := Live(path, c, reply.value.body.value, [], [], false)])
    case PollBody(id, d) =>
      if id !in st.bodies then st
      else
        var b := st.bodies[id];
        var p := Poll(b.stream, d);
        State(if p.insert.Some? && b.stream.opts.Some? then st.store[b.stream.opts.value.path := p.insert.value] else st.store,
              st.bodies[id := AfterPoll(b, d)], st.log)
    case DropBody(id) => st.(bodies := st.bodies - {id})
    case Evict(path) => st.(store := st.store - {path})
  }

  function Run(site: Site, events: seq<Event>): State
    decreases |events|
  {
    if events == [] then INITIAL else Step(site, Run(site, events[..|events| - 1]), events[|events| - 1])
  }

  /** What the client of an uncached server would get: the head and the whole body. */
  datatype Seen = Seen(head: Head, body: Option<seq<byte>>)

  ghost function Reference(site: Site, path: string, c: Conditionals): Seen
    requires path in site.files
  {
    See(DiskReply(site.(maxFileSize := None), path, c))
  }

  ghost function See(reply: Reply): Seen {
    Seen(reply.head,
         if reply.body.None? then None
         else var cur := reply.body.value.cursor;
              if cur.pos + cur.limit <= |cur.file| then Some(cur.file[cur.pos..cur.pos + cur.limit]) else None)
  }

  /** The entry a complete download of a file leaves behind. */
  function Faithful(f: File): MemFile {
    MemFile(f.content, BufSize(f), f.contentType, Modified(f.meta))
  }

  ghost predicate StoreSound(site: Site, store: map<string, MemFile>) {
    forall p <- store :: p in site.files && store[p] == Faithful(site.files[p])
  }

  /** The slice a request for `f` resolves to, if it gets a body. */
  function SliceOf(f: File, c: Conditionals): Option<Span> {
    match Check(c, Modified(f.meta))
    case NoBody(_) => None
    case WithBody(range) =>
      match BytesRange(range, f.meta.len)
      case Err(_) => None
      case Ok(span) => Some(span)
  }

  ghost predicate BodySound(site: Site, b: Live) {
    && b.path in site.files
    && var f := site.files[b.path];
       var slice := SliceOf(f, b.conditionals);
       && slice.Some?
       && b.stream.cursor.file == f.content && b.stream.bufSize == BufSize(f)
       && (b.stream.opts.Some? ==> b.stream.opts.value == TempOpts(b.path, f.contentType, Modified(f.meta)))
       && Delivering(b.stream, slice.value.start, slice.value.end, b.delivered)
       && Caching(b.stream, f.meta.len, b.delivered, b.inserts)
       && (b.ended ==> b.stream.cursor.Remaining() == 0)
  }

  /** Every reply sent, apart from failed seeks, is the uncached server's. */
  ghost predicate LogSound(site: Site, log: seq<Sent>) {
    forall i | 0 <= i < |log| ::
      && log[i].path in site.files
      && (log[i].reply.Some? ==> See(log[i].reply.value) == Reference(site, log[i].path, log[i].conditionals))
  }

  ghost predicate Inv(site: Site, st: State) {
    && StoreSound(site, st.store)
    && (forall id <- st.bodies :: BodySound(site, st.bodies[id]))
    && LogSound(site, st.log)
  }

  lemma LengthFits(data: seq<byte>, len: u64)
    requires |data| == len
    ensures Length(data) == len
  {
  }

  lemma ReplySound(site: Site, path: string, c: Conditionals, opts: Option<TempOpts>)
    requires Consistent(site) && path in site.files
    requires opts.Some? ==> opts.value == TempOpts(path, site.files[path].contentType, Modified(site.files[path].meta))
    ensures var reply := ReplyWith(site.files[path], c, opts);
            && See(reply) == See(ReplyWith(site.files[path], c, None))
            && (reply.body.Some? ==> BodySound(site, Live(path, c, reply.body.value, [], [], false)))
  {
    var f := site.files[path];
    var slice := SliceOf(f, c);
    if slice.Some? {
      assert f.content[slice.value.start..slice.value.start] == [];
    }
  }

  lemma AnswerSound(site: Site, store: map<string, MemFile>, path: string, c: Conditionals, seekOk: bool)
    requires Consistent(site) && StoreSound(site, store) && path in site.files
    ensures var reply := Answer(site, store, path, c, seekOk);
            reply.Some? ==>
              && See(reply.value) == Reference(site, path, c)
              && (reply.value.body.Some? ==> BodySound(site, Live(path, c, reply.value.body.value, [], [], false)))
  {
    hide FileReply, See, BodySound, Length;
    var f := site.files[path];
    if path in store {
      LengthFits(store[path].data, f.meta.len);
    }
    ReplySound(site, path, c, None);
    ReplySound(site, path, c, CacheOpts(PathOf(path, f), f.meta, site.maxFileSize));
  }

  lemma PollSound(site: Site, b: Live, d: Delivery)
    requires Consistent(site) && BodySound(site, b)
    ensures var p := Poll(b.stream, d);
            && BodySound(site, AfterPoll(b, d)) && AfterPoll(b, d).path == b.path && AfterPoll(b, d).conditionals == b.conditionals
            && (p.insert.Some? ==> b.stream.opts.Some? && p.insert.value == Faithful(site.files[b.path]))
            && (p.insert.Some? <==> b.inserts == [] && b.stream.opts.Some? && p.item.Some? && d.Delivers?
                                    && b.delivered + Chunk(p.item) == site.files[b.path].content)
  {
    var f := site.files[b.path];
    var slice := SliceOf(f, b.conditionals).value;
    PollKeeps(b.stream, d, slice.start, slice.end, f.meta.len, b.delivered, b.inserts);
    PollFrame(b.stream, d);
    var p := Poll(b.stream, d);
    var delivered := b.delivered + Chunk(p.item);
    assert |delivered| == |f.content| ==> delivered == f.content;
  }

  lemma PollFrame(s: StreamState, d: Delivery)
    ensures Poll(s, d).next.bufSize == s.bufSize
    ensures Poll(s, d).insert.Some? ==> |AsSeq(Poll(s, d).insert)| == 1
  {
  }

  lemma StepKeeps(site: Site, st: State, e: Event)
    requires Consistent(site) && Inv(site, st)
    ensures Inv(site, Step(site, st, e))
  {
    hide Poll, AfterPoll, Answer, Reference, See, Delivering, Caching, SliceOf;
    match e
    case Request(path, c, seekOk) =>
      if path in site.files {
        AnswerSound(site, st.store, path, c, seekOk);
      }
    case PollBody(id, d) =>
      if id in st.bodies {
        PollSound(site, st.bodies[id], d);
      }
    case DropBody(id) =>
    case Evict(path) =>
  }

  lemma {:induction false} RunKeeps(site: Site, events: seq<Event>)
    requires Consistent(site)
    ensures Inv(site, Run(site, events))
    decreases |events|
  {
    if events != [] {
      RunKeeps(site, events[..|events| - 1]);
      StepKeeps(site, Run(site, events[..|events| - 1]), events[|events| - 1]);
    }
  }

  /** In every run every store entry is the complete bytes, type, date and buffer size of its path. */
  lemma StoreIsAlwaysSound(site: Site, events: seq<Event>)
    requires Consistent(site)
    ensures StoreSound(site, Run(site, events).store)
  {
    RunKeeps(site, events);
  }

  /** Every body in flight has handed over a prefix of the uncached server's bytes, and all of them once ended. */
  ghost predicate BodiesFaithful(site: Site, bodies: map<nat, Live>) {
    forall id <- bodies :: BodyFaithful(site, bodies[id])
  }

  ghost predicate BodyFaithful(site: Site, b: Live) {
    && b.path in site.files
    && var whole := Reference(site, b.path, b.conditionals).body;
       whole.Some? && b.delivered <= whole.value && (b.ended ==> b.delivered == whole.value)
  }

  /**
   * The cache is invisible: in every run every reply sent carries the head and the body an uncached server
   * would give to that request, and every body in flight hands over those bytes and no others.
   */
  lemma CacheIsInvisible(site: Site, events: seq<Event>)
    requires Consistent(site)
    ensures LogSound(site, Run(site, events).log)
    ensures BodiesFaithful(site, Run(site, events).bodies)
  {
    RunKeeps(site, events);
    var st := Run(site, events);
    forall id <- st.bodies
      ensures BodyFaithful(site, st.bodies[id])
    {
      BodyIsPrefix(site, st.bodies[id]);
    }
  }

  lemma BodyIsPrefix(site: Site, b: Live)
    requires Consistent(site) && BodySound(site, b)
    ensures BodyFaithful(site, b)
  {
    var f := site.files[b.path];
    var slice := SliceOf(f, b.conditionals).value;
    Conclude(b.stream, slice.start, slice.end, f.meta.len, b.delivered, b.inserts);
  }

  /**
   * In every run each request for a file is answered, with a failure only if the seek failed, and a reply with a
   * body starts a fresh body in flight that has handed over nothing yet.
   */
  lemma RequestIsAnswered(site: Site, events: seq<Event>, path: string, c: Conditionals, seekOk: bool)
    requires Consistent(site) && path in site.files
    ensures var st := Run(site, events);
            var st' := Step(site, st, Request(path, c, seekOk));
            var whole := Reference(site, path, c).body;
            && |st'.log| == |st.log| + 1 && st'.log[..|st.log|] == st.log && st'.store == st.store
            && var sent := st'.log[|st.log|];
               && sent.path == path && sent.conditionals == c
               && (sent.reply.None? ==> !seekOk && whole.Some?)
               && (sent.reply.Some? && whole.Some? ==>
                     && |st.log| in st'.bodies
                     && var b := st'.bodies[|st.log|];
                        b.path == path && b.conditionals == c && b.delivered == [] && !b.ended)
  {
    RunKeeps(site, events);
    var st := Run(site, events);
    AnswerSound(site, st.store, path, c, seekOk);
    ReplySound(site, path, c, CacheOpts(PathOf(path, site.files[path]), site.files[path].meta, site.maxFileSize));
  }

  lemma SuccessfulPoll(b: Live, most: nat)
    ensures |AfterPoll(b, Delivers(most)).delivered| > |b.delivered| || AfterPoll(b, Delivers(most)).ended
  {
  }

  /** In every run a successful poll either hands over more of the body or finds it complete and ends it. */
  lemma PollMakesProgress(site: Site, events: seq<Event>, id: nat, most: nat)
    requires Consistent(site) && id in Run(site, events).bodies
    ensures var st := Run(site, events);
            var b, b' := st.bodies[id], Step(site, st, PollBody(id, Delivers(most))).bodies[id];
            && b.path in site.files && Reference(site, b.path, b.conditionals).body.Some?
            && (|b'.delivered| > |b.delivered|
                || (b'.ended && b'.delivered == Reference(site, b.path, b.conditionals).body.value))
  {
    hide Run, Poll, AfterPoll, Reference, BodySound;
    RunKeeps(site, events);
    var b := Run(site, events).bodies[id];
    PollSound(site, b, Delivers(most));
    SuccessfulPoll(b, most);
    BodyIsPrefix(site, AfterPoll(b, Delivers(most)));
  }

  /**
   * In every run a body inserts at most once; it has inserted exactly when it can fill the cache and has
   * handed over the whole non-empty file; and the inserting poll is exactly the one that hands over the
   * file's last byte. A body on a proper part of the file never inserts.
   */
  lemma InsertsExactlyOnce(site: Site, events: seq<Event>, id: nat, d: Delivery)
    requires Consistent(site) && id in Run(site, events).bodies
    ensures var b := Run(site, events).bodies[id];
            var p := Poll(b.stream, d);
            && b.path in site.files
            && var f := site.files[b.path];
               && |b.inserts| <= 1
               && (b.inserts != [] <==> b.stream.opts.Some? && b.delivered == f.content != [])
               && (p.insert.Some? <==> b.stream.opts.Some? && b.delivered != f.content && b.delivered + Chunk(p.item) == f.content)
               && (SliceOf(f, b.conditionals) != Some(Span(0, f.meta.len)) && f.content != [] ==> b.inserts == [] && p.insert.None?)
  {
    RunKeeps(site, events);
    var b := Run(site, events).bodies[id];
    var f := site.files[b.path];
    PollSound(site, b, d);
    var slice := SliceOf(f, b.conditionals).value;
    Conclude(b.stream, slice.start, slice.end, f.meta.len, b.delivered, b.inserts);
    var p := Poll(b.stream, d);
    assert p.item.None? ==> b.delivered + Chunk(p.item) == b.delivered;
    assert d.Fails? ==> b.delivered + Chunk(p.item) == b.delivered;
    if |b.delivered| == |f.content| {
      assert b.delivered == f.content;
    }
  }

  // ----- Where answers come from, and what changes the store -----

  /**
   * With the cache on, a stored file is answered from the store: no seek can fail and its body never fills the cache.
   * Any other answer comes from the disk, and its body may fill the cache exactly if the file is within the limit.
   */
  lemma AnswerComesFrom(site: Site, store: map<string, MemFile>, path: string, c: Conditionals, seekOk: bool)
    requires path in site.files
    ensures var f, reply := site.files[path], Answer(site, store, path, c, seekOk);
            if site.maxFileSize.Some? && f.utf8 && path in store then
              && reply.Some?
              && (reply.value.body.Some? ==> reply.value.body.value.cursor.file == store[path].data
                                             && reply.value.body.value.opts == None && reply.value.body.value.buf == None)
            else
              && (reply.None? <==> !seekOk && SliceOf(f, c).Some?)
              && (reply.Some? && reply.value.body.Some? ==>
                    && reply.value.body.value.cursor.file == f.content
                    && (reply.value.body.value.opts.Some? <==>
                          site.maxFileSize.Some? && f.meta.len <= site.maxFileSize.value && f.utf8))
  {
    hide ResolveSpec, Check;
  }

  /** In every run the store changes only by an inserting poll, which stores its file and nothing else, and by eviction. */
  lemma StoreChanges(site: Site, events: seq<Event>, e: Event)
    requires Consistent(site)
    ensures var st := Run(site, events);
            var store := Step(site, st, e).store;
            match e
            case Request(_, _, _) => store == st.store
            case DropBody(_) => store == st.store
            case Evict(path) => store.Keys == st.store.Keys - {path} && forall p <- store :: store[p] == st.store[p]
            case PollBody(id, d) =>
              if id in st.bodies && Poll(st.bodies[id].stream, d).insert.Some? then
                && st.bodies[id].path in site.files
                && store == st.store[st.bodies[id].path := Faithful(site.files[st.bodies[id].path])]
              else store == st.store
  {
    hide Run, Poll, Answer, Faithful;
    RunKeeps(site, events);
    var st := Run(site, events);
    match e {
      case Request(_, _, _) =>
      case DropBody(_) =>
      case Evict(_) =>
      case PollBody(id, d) =>
        if id in st.bodies {
          PollSound(site, st.bodies[id], d);
        }
    }
  }

  // ----- Pre-compressed variants -----

  /** `f` as an answer describes it that carries other metadata. */
  function With(f: File, meta: Metadata): File {
    f.(meta := meta)
  }

  /** What `f` is answered with when the opened file holds `bytes`, and length, date and block size are those of `meta`. */
  function VariantReply(site: Site, path: string, f: File, meta: Metadata, bytes: seq<byte>, c: Conditionals): Reply {
    FileReply(bytes, meta.len, BufSize(With(f, meta)), f.contentType, Modified(meta), c, FillOpts(site, path, f, meta))
  }

  /** The options of a body that may fill the cache. */
  function FillOpts(site: Site, path: string, f: File, meta: Metadata): Option<TempOpts> {
    CacheOpts(PathOf(path, f), meta, site.maxFileSize)
  }

  lemma VariantBody(site: Site, path: string, f: File, meta: Metadata, bytes: seq<byte>, c: Conditionals)
    ensures var reply, slice := VariantReply(site, path, f, meta, bytes, c), SliceOf(With(f, meta), c);
            && (reply.body.Some? <==> slice.Some?)
            && (slice.Some? ==>
                  && slice.value.start <= slice.value.end <= meta.len
                  && reply.body.value == Opened(bytes, slice.value.start, slice.value.end, BufSize(With(f, meta)),
                                                FillOpts(site, path, f, meta), meta.len))
  {
  }

  /** The store after a body's insertions under its path. */
  function Filled(store: map<string, MemFile>, path: string, inserts: seq<MemFile>): map<string, MemFile> {
    if inserts == [] then store else store[path := inserts[|inserts| - 1]]
  }

  lemma FilledIsSoundIff(site: Site, store: map<string, MemFile>, path: string, file: MemFile)
    requires StoreSound(site, store) && path in site.files
    ensures StoreSound(site, Filled(store, path, [file])) <==> file == Faithful(site.files[path])
  {
    assert path in Filled(store, path, [file]);
  }

  /** The body is a complete download: of the whole length announced, all of it there, and cacheable. */
  predicate Fills(site: Site, path: string, f: File, meta: Metadata, bytes: seq<byte>, c: Conditionals, delivered: seq<byte>) {
    && FillOpts(site, path, f, meta).Some?
    && SliceOf(With(f, meta), c) == Some(Span(0, meta.len))
    && 0 < meta.len <= |bytes| && delivered == bytes[..meta.len]
  }

  /** The bytes sent, with the metadata sent, are those a plain download of `f` leaves behind. */
  predicate Resembles(f: File, meta: Metadata, bytes: seq<byte>) {
    && meta.len <= |bytes| && bytes[..meta.len] == f.content
    && Modified(meta) == Modified(f.meta) && BufSize(With(f, meta)) == BufSize(f)
  }

  /**
   * A variant's body, with whatever metadata accompanies it: for every request and however the reads go, it fills
   * the cache exactly when it is a complete download of the length announced; and the store stays sound exactly
   * when nothing is filled, or what is cannot be told from the file.
   */
  lemma VariantKeepsStoreSoundIff(site: Site, store: map<string, MemFile>, path: string, meta: Metadata, variant: seq<byte>,
                                  c: Conditionals, schedule: seq<Delivery>)
    requires StoreSound(site, store) && path in site.files
    ensures var f := site.files[path];
            var reply := VariantReply(site, path, f, meta, variant, c);
            reply.body.Some? ==>
              var t := Drain(reply.body.value, schedule);
              var fills := Fills(site, path, f, meta, variant, c, t.delivered);
              && (t.inserts != [] <==> fills)
              && (StoreSound(site, Filled(store, path, t.inserts)) <==> !fills || Resembles(f, meta, variant))
  {
    hide FileReply, StoreSound, Drain, SliceOf, BufSize;
    var f := site.files[path];
    var slice, opts := SliceOf(With(f, meta), c), FillOpts(site, path, f, meta);
    VariantBody(site, path, f, meta, variant, c);
    if slice.Some? {
      ServedBytes(variant, slice.value.start, slice.value.end, meta.blockSize, opts, meta.len, schedule);
      var t := Drain(VariantReply(site, path, f, meta, variant, c).body.value, schedule);
      BufSizeOf(f, meta);
      if t.inserts != [] {
        FilledIsSoundIff(site, store, path, t.inserts[0]);
        assert |Part(variant, slice.value.start, slice.value.end)| >= meta.len;
      }
    }
  }

  lemma BufSizeOf(f: File, meta: Metadata)
    ensures BufSize(With(f, meta)) == OptimalBufSize(meta.blockSize, meta.len)
  {
  }

  /** Every complete download without conditions of a variant that can be told from the file makes the store unsound. */
  lemma CompleteDownloadBreaksStore(site: Site, store: map<string, MemFile>, path: string, meta: Metadata, variant: seq<byte>,
                                    schedule: seq<Delivery>)
    requires StoreSound(site, store) && path in site.files && site.files[path].utf8
    requires 0 < meta.len <= |variant| && !Resembles(site.files[path], meta, variant)
    requires site.maxFileSize.Some? && meta.len <= site.maxFileSize.value && Successes(schedule) >= meta.len
    ensures var reply := VariantReply(site, path, site.files[path], meta, variant, Conditionals(None, None, None, None));
            && reply.body.Some?
            && !StoreSound(site, Filled(store, path, Drain(reply.body.value, schedule).inserts))
  {
    hide FileReply, StoreSound, Drain, Successes;
    var f, c := site.files[path], Conditionals(None, None, None, None);
    assert SliceOf(With(f, meta), c) == Some(Span(0, meta.len));
    VariantBody(site, path, f, meta, variant, c);
    BufSizeOf(f, meta);
    ServedBytes(variant, 0, meta.len, meta.blockSize, FillOpts(site, path, f, meta), meta.len, schedule);
    assert Part(variant, 0, meta.len) == variant[..meta.len];
    VariantKeepsStoreSoundIff(site, store, path, meta, variant, c, schedule);
  }

  /**
   * For a file of two bytes: a variant of one byte that comes with its own metadata, as a directory's first hit does,
   * and one of three bytes that comes with the file's, both end up in the store under the file's name.
   */
  lemma VariantsBreakStore(blockSize: nat)
    ensures var page := File([1, 2], Metadata(2, None, blockSize), "text/html", true);
            var site := Site(map["index.html" := page], Some(10));
            var c, schedule := Conditionals(None, None, None, None), [Delivers(1), Delivers(1)];
            var shorter := VariantReply(site, "index.html", page, Metadata(1, None, blockSize), [3], c).body;
            var longer := VariantReply(site, "index.html", page, page.meta, [3, 4, 5], c).body;
            && shorter.Some? && !StoreSound(site, Filled(map[], "index.html", Drain(shorter.value, schedule).inserts))
            && longer.Some? && !StoreSound(site, Filled(map[], "index.html", Drain(longer.value, schedule).inserts))
  {
    hide VariantReply, Drain;
    var page := File([1, 2], Metadata(2, None, blockSize), "text/html", true);
    var site, schedule := Site(map["index.html" := page], Some(10)), [Delivers(1), Delivers(1)];
    assert schedule[1..] == [Delivers(1)] && Successes([Delivers(1)]) == 1 && Successes(schedule) == 2;
    var longer: seq<byte> := [3, 4, 5];
    assert longer[..2][0] == 3;
    CompleteDownloadBreaksStore(site, map[], "index.html", Metadata(1, None, blockSize), [3], schedule);
    CompleteDownloadBreaksStore(site, map[], "index.html", page.meta, longer, schedule);
  }
}
