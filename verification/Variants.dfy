/**
 * Pre-compressed variants and the cache, from the lookup (src/static_files.rs) to the store: which metadata an answer
 * with a variant carries decides what its body leaves in the cache.
 */
module Variants {
  import opened Wrappers
  import opened Bytes
  import opened ByteRange
  import opened Conditional
  import opened Streaming
  import opened CacheRuns
  import Lookup
  import Replies

  /** The lookup's file system on disk: the text of each path, and the metadata each stamp stands for. */
  datatype Disk = Disk(text: Lookup.FilePath -> string, meta: nat -> Replies.Metadata)

  /** The served files are the file system's, each with its own metadata. */
  ghost predicate Mirrors(site: Site, fs: Lookup.FileSystem, disk: Disk) {
    forall p <- fs.nodes | !fs.nodes[p].isDir ::
      disk.text(p) in site.files && site.files[disk.text(p)].meta == disk.meta(fs.nodes[p].stamp)
  }

  /** An answer for a file that exists beside the variant it names. */
  ghost predicate ServesVariant(req: Lookup.Request, start: Lookup.FilePath, configured: seq<Lookup.IndexFile>, r: Lookup.FileMetadata) {
    && Lookup.LookupAnswer(req, start, configured, Ok(r)) && r.variant.Some?
    && r.path in req.fs.nodes && !req.fs.nodes[r.path].isDir
    && r.variant.value.0 in req.fs.nodes && !req.fs.nodes[r.variant.value.0].isDir
  }

  /** The metadata is the variant's for a directory's first hit, and the file's for a path asked for or a plain hit. */
  lemma WhoseMetadata(site: Site, disk: Disk, req: Lookup.Request, start: Lookup.FilePath, configured: seq<Lookup.IndexFile>,
                      r: Lookup.FileMetadata)
    requires Mirrors(site, req.fs, disk) && ServesVariant(req, start, configured, r)
    ensures var meta := disk.meta(r.metadata.stamp);
            if Lookup.FromVariant(req, start, configured) then meta == site.files[disk.text(r.variant.value.0)].meta
            else Lookup.Original(req, start, configured, r.path) == r.path ==> meta == site.files[disk.text(r.path)].meta
  {
    Lookup.MetadataIsVariantsIff(req, start, configured, r);
    hide Lookup.LookupAnswer, Lookup.FromVariant, Lookup.Original;
  }

  /**
   * An answer from a directory's first hit, which carries the variant's own metadata: every complete download fills
   * the cache with the whole variant under the file's name, whichever of the two is longer, and the store stays sound
   * only if variant and file are equal in content, date and block size. Any other answer carries the file's metadata:
   * it fills the cache only from a variant that is not shorter, and the store stays sound only if that begins with the
   * file. (A directory may also lend its own metadata, see `Lookup.Original`.)
   */
  lemma AnswerKeepsStoreSoundIff(site: Site, store: map<string, MemFile>, disk: Disk, req: Lookup.Request,
                                 start: Lookup.FilePath, configured: seq<Lookup.IndexFile>, r: Lookup.FileMetadata,
                                 c: Conditionals, schedule: seq<Delivery>)
    requires Consistent(site) && StoreSound(site, store)
    requires Mirrors(site, req.fs, disk) && ServesVariant(req, start, configured, r)
    ensures var path := disk.text(r.path);
            var f, v, meta := site.files[path], site.files[disk.text(r.variant.value.0)], disk.meta(r.metadata.stamp);
            var reply := VariantReply(site, path, f, meta, v.content, c);
            reply.body.Some? ==>
              var t := Drain(reply.body.value, schedule);
              var fills := FillOpts(site, path, f, meta).Some? && SliceOf(With(f, meta), c) == Some(Span(0, meta.len));
              var sound := StoreSound(site, Filled(store, path, t.inserts));
              if Lookup.FromVariant(req, start, configured) then
                && (t.inserts != [] <==> fills && v.content != [] && t.delivered == v.content)
                && (sound <==> t.inserts == [] || Alike(f, v))
              else Lookup.Original(req, start, configured, r.path) == r.path ==>
                && (t.inserts != [] <==> fills && f.content != [] && |f.content| <= |v.content|
                                         && t.delivered == v.content[..|f.content|])
                && (sound <==> t.inserts == [] || f.content <= v.content)
  {
    hide Replies.FileReply, StoreSound, Drain, SliceOf, BufSize, Lookup.LookupAnswer, Lookup.FromVariant, Lookup.Original, FillOpts;
    var path := disk.text(r.path);
    var f, v, meta := site.files[path], site.files[disk.text(r.variant.value.0)], disk.meta(r.metadata.stamp);
    WhoseMetadata(site, disk, req, start, configured, r);
    VariantKeepsStoreSoundIff(site, store, path, meta, v.content, c, schedule);
    assert v.content[..|v.content|] == v.content;
    BufSizeOf(f, meta);
    BufSizeOf(v, v.meta);
    assert |f.content| <= |v.content| ==> (f.content <= v.content <==> v.content[..|f.content|] == f.content);
  }

  /** A variant that cannot be told from its file. */
  predicate Alike(f: File, v: File) {
    v.content == f.content && Replies.Modified(v.meta) == Replies.Modified(f.meta) && BufSize(v) == BufSize(f)
  }
}
