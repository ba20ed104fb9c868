# WeaveGate, modelled and proved

A Dafny 4.11 model of the algorithmic parts of WeaveGate, a static file server and reverse proxy, with proofs of what
its parts and their compositions guarantee. `dafny verify dfyconfig.toml` checks everything.

| file | what it models |
|---|---|
| `ByteRange.dfy` | the `Range` header, in 64-bit arithmetic |
| `Conditional.dfy` | conditional request headers |
| `Streaming.dfy` | the two body streams and the cache store they fill, under any short or failing reads |
| `Replies.dfy` | file replies from disk and from memory, against one specification |
| `CacheRuns.dfy` | all interleavings of requests, polls, dropped bodies and evictions |
| `Bytes.dfy`, `Text.dfy`, `Paths.dfy` | splitting, trimming, percent coding, path components, path sanitizing |
| `Listing.dfy` | directory listings, their links, and where a followed link leads |
| `Lookup.dfy` | index, suffix and pre-compressed search on a fixed file system |
| `Variants.dfy` | pre-compressed variants from the lookup to the cache |
| `Archive.dfy` | the directory download's stack loop and the recursive traversal it refines |
| `Sorting.dfy`, `Negotiation.dfy` | stable sorting, quality lists, the choice of an encoding |
| `Routing.dfy`, `Upstream.dfy`, `Balancer.dfy`, `Tunnels.dfy` | proxy rules, upstream URIs, round robin, upgrade permits |
| `Substitution.dfy` | placeholders in redirect destinations |
| `Bootstrap.dfy` | control-plane documents and startups |
| `FileSize.dfy` | human-readable file sizes |

What comes from outside is a parameter: what one `read` delivers, whether a seek succeeds, the parsing of q-values, the
glob engine, the URI parser, what the control plane answers, and the order of events. Strings hold one character per
byte, so lengths count bytes as the program's do.

## Where the code departs from its comments or the standards

The model follows the code.

- `b + 1` for a range `a-b` wraps in release builds when `b` is the largest 64-bit number, so that satisfiable range is
  refused. A range that starts exactly at the end of the file and goes on is answered with an empty 206 whose
  `Content-Range` ends before it begins. `ByteRange.AcceptedIff` and `Replies.ContentRangeWellFormedIff` say exactly when.
- Among proxy sources of equal length the one with *more* wildcards is tried first; the comment in
  `src/proxy_sort.rs` and `docs/routes-bootstrap-v1.md` say fewer (`Routing.TiesGoToMoreWildcards`). The comment is right
  iff the accepting sources of that length have equally many (`Routing.FewestWildcardsWinIff`, `Routing.MoreWildcardsWin`).
- `src/fs/meta.rs:22-23` says that metadata next to a pre-compressed variant is the variant's. That holds when the path
  asked for does not exist or a variant is a directory's first hit; otherwise it is the uncompressed file's
  (`Lookup.MetadataIsVariantsIff`, with file systems in `Lookup.MetadataDeparts` and `Lookup.DirectoryTakesVariants`). The
  lookup's answer for a missing path from its variant is never served, since `src/static_files.rs:126-133` resolves the
  missing path; it even hides an existing `.html` sibling (`Lookup.MissingPathIsServedIff`).
- A pre-compressed variant is sent, and cached under the original's name, with the metadata of its answer. With the
  file's, it arrives whole iff it is not longer (`Streaming.VariantArrivesIff`, `Streaming.VariantIsCut`), and a complete
  download fills the cache iff it is not shorter. With its own, as a directory's first hit, every complete download of a
  non-empty variant fills the cache. `CacheRuns.VariantKeepsStoreSoundIff` says when the store stays sound, for any
  metadata; `Variants.AnswerKeepsStoreSoundIff` for each kind of answer; `CacheRuns.VariantsBreakStore` shows both failures.
  The other theorems about the cache are therefore stated for files served under their own names.
- A link that leads nowhere ends a directory download in which links are followed, and what was not yet visited is
  missing from it (`Archive.ArchiveIsPrefix`, `Archive.DanglingLinkEndsArchive`).
- Listing links of a path with a `..` that climbs over a name do not lead back: clients resolve the segment by
  section 5.2 of RFC 3986, `sanitize_path` drops it (`Listing.LinkRoundTrip`, `Listing.ClimbingLinksFail`).
- An index file given as more than one path component moves the search to another directory
  (`Lookup.IterationRestoresIff`, `Lookup.IterationMovesOn`).
- Round robin is unfair once, when the counter wraps, unless the number of targets divides its range
  (`Balancer.WindowAcrossWrapIff`, `Balancer.WindowAcrossWrapIsUnfair`).
- With more than ten capture groups the reference `$10` is read as `$1` and a zero, and so on for every group with more
  than one digit (`Substitution.GroupIsReferencedIff`, `Substitution.TenthGroupIsShadowed`).
- A fetched routes document that cannot be written to the cache is not what a later failed fetch replays
  (`Bootstrap.SnapshotIsLastFetchedIff`, `Bootstrap.UnwrittenIsForgotten`).

## Model

| member | source | states |
|---|---|---|
| ByteRange.BytesRange | src/response.rs:156-215 | an accepted header gives a slice inside the file holding exactly the byte positions its first well-formed spec selects, the whole file without a header |
| ByteRange.AcceptedIff | src/response.rs:168-210 | a header is accepted iff its first spec selects a byte, apart from two exactly named families of inputs |
| ByteRange.DeparturesOccur | src/response.rs:176-207 | both families have members |
| Conditional.VerdictIff | src/conditional_headers.rs:40-86 | for all headers at once, when each verdict arises |
| Streaming.OptimalBufSize | src/fs/stream.rs:49-64 | the buffer is the whole file, or at least 4096 bytes and a block; it is empty only for an empty file |
| Streaming.FileStream.PollNext | src/fs/stream.rs:33-46 | one poll of the plain stream is one step of the stream specification and never inserts |
| Streaming.MemCacheFileStream.PollNext | src/mem_cache/stream.rs:22-70 | one poll of the caching stream is one step of the same specification, and its insertion is the store's only change |
| Streaming.PollKeeps | src/mem_cache/stream.rs:22-70 | any poll keeps the delivered bytes a prefix of the slice and the buffer equal to them; the end is reported iff nothing remains; the insertion happens iff the poll completes the file |
| Streaming.ServedBytes | src/mem_cache/stream.rs:22-70 | draining any slice of any opened file under any schedule of short and failing reads delivers a prefix of its part of the slice, all of it after that many successes, and fills the cache iff the first `len` bytes have been delivered |
| Streaming.DrainDelivers | src/fs/stream.rs:33-54 | for a file under its own name: exactly the slice, and the cache gets the whole non-empty file or nothing |
| Streaming.VariantArrivesIff | src/static_files.rs:309-320 | a complete download of a variant is the whole variant iff that is not longer than the original |
| Streaming.VariantIsCut | src/static_files.rs:309-320 | a longer variant of which only the first byte arrives |
| Streaming.DrainAll | src/mem_cache/stream.rs:22-70 | polling until the end or a failing read terminates; what came is a prefix of the slice, all of it unless a read failed, and the store gains the path iff the whole file came |
| Replies.DiskResponseBody | src/response.rs:32-150 | the disk reply: status over the time stamp and the headers, Last-Modified as the second the stamp falls into, all other fields, which body fills the cache, and its stream; it fails only for a failed seek, and the unrepresentable-range branch is dead |
| Replies.MemResponseBody | src/mem_cache/cache.rs:187-254 | the reply from memory meets the same specification with the stored type and date, and its body never fills the cache |
| Replies.GetOrAcquire | src/mem_cache/cache.rs:106-135 | a reply from the store iff the path is UTF-8 and stored, and then the specified one |
| Replies.ReplyIsExact | src/response.rs:48-148 | the drained body is exactly the bytes wanted, Content-Length counts them, and 206 with Content-Range is sent iff they are not the whole file |
| Replies.ContentRangeWellFormedIff | src/response.rs:111-128 | Content-Range names a non-empty range inside the file iff the spec does not start at the end of the file |
| Replies.ContentRangeOfNothing | src/response.rs:111-128 | a reply whose Content-Range ends before it begins |
| Replies.StatusIff | src/response.rs:48-148 | for all validators and ranges at once, when the status is 412, 304, 416, 206 and 200 |
| CacheRuns.StoreIsAlwaysSound | src/mem_cache/stream.rs:36-63 | in every run every store entry is the complete bytes, type, date and buffer size of its path |
| CacheRuns.CacheIsInvisible | src/mem_cache/cache.rs:106-254 | in every run every reply and every delivered byte is what an uncached server would send |
| CacheRuns.RequestIsAnswered | src/response.rs:32-150 | in every run a request is answered, fails only for a failed seek, and a reply with a body starts a fresh body |
| CacheRuns.PollMakesProgress | src/fs/stream.rs:33-46 | in every run a successful poll hands over more, or ends a body that is complete |
| CacheRuns.InsertsExactlyOnce | src/mem_cache/stream.rs:35-63 | a body inserts at most once, exactly in the poll that hands over the last byte of the whole file; a body on a part never does |
| CacheRuns.AnswerComesFrom | src/mem_cache/cache.rs:106-135 | a stored file is answered from the store, any other from the disk with a body that fills the cache iff the file is within the limit |
| CacheRuns.StoreChanges | src/mem_cache/stream.rs:36-63 | in every run only inserting polls and evictions change the store, each at one path |
| CacheRuns.VariantKeepsStoreSoundIff | src/static_files.rs:501-515 | for every request and schedule and whatever metadata accompanies a variant, when its body fills the cache, and that the store then stays sound iff bytes, date and block size are the file's |
| CacheRuns.CompleteDownloadBreaksStore | src/static_files.rs:501-515 | every complete download of a variant that can be told from the file makes the store unsound |
| CacheRuns.VariantsBreakStore | src/static_files.rs:309-320 | a shorter variant with its own metadata and a longer one with the file's, each cached under the file's name |
| Variants.WhoseMetadata | src/static_files.rs:377-428 | the metadata sent is the variant's own for a directory's first hit and the file's otherwise |
| Variants.AnswerKeepsStoreSoundIff | src/static_files.rs:309-320 | from the lookup to the store, for each kind of answer with a variant: when its body fills the cache, and when the store stays sound |
| Paths.DecodeEncode | src/directory_listing/dir.rs:23-30 | percent decoding undoes the listing's encoding for every byte string |
| Paths.EncodeByteIs | src/directory_listing/dir.rs:23-30 | exactly letters, digits and `_-.~` are kept, all else becomes an escape |
| Paths.EscapeIsByte | src/fs/path.rs:77-81 | an escape with digits in either case is one byte |
| Paths.StrayPercentStays | src/fs/path.rs:77-81 | a percent sign without two hexadecimal digits behind it stands for itself |
| Paths.UnescapedStays | src/fs/path.rs:77-81 | text without a percent sign stands for itself |
| Paths.EscapedSlashSeparates | src/fs/path.rs:77-111 | an escaped slash separates names |
| Paths.EscapedDotsVanish | src/fs/path.rs:77-111 | escaped dots name nothing |
| Paths.SanitizePath | src/fs/path.rs:83-111 | the result is the base followed by the plain names of the decoded path, so it never leaves the base |
| Paths.PlainNameIsNormal | src/fs/path.rs:91-100 | the second check of each component never fails on Unix |
| Paths.EveryPathIsReachable | src/fs/path.rs:77-111 | every sequence of entry names is reached by its encoded path |
| Listing.ReadDirEntries | src/directory_listing/dir.rs:84-195 | the listing is the shown entries in the order read with their links, an unreadable entry fails it, and the counts count directories and the rest |
| Listing.ListEntry | src/directory_listing/dir.rs:91-194 | which entries are shown, with which type, size and link |
| Listing.DescribedIs | src/directory_listing/dir.rs:91-194 | case by case, when an entry is shown, and its name, type and size |
| Listing.ListedAppend | src/directory_listing/dir.rs:84-195 | the listing of a directory read in two stretches is the one followed by the other |
| Listing.CountIsCardinality | src/directory_listing/dir.rs:113-116 | the directories counted are the entries that are one |
| Listing.LinkEnds | src/directory_listing/dir.rs:176-183 | a link ends in a slash iff its entry is a directory |
| Listing.FoldRoute | src/fs/path.rs:88-109 | dot removal keeps the route iff no `..` climbs over a name |
| Listing.LinkRoundTrip | src/directory_listing/dir.rs:161-183 | following a printed link and sanitizing the result gives the listed directory plus exactly the entry's name, iff the path neither reads as a scheme nor climbs over a name |
| Listing.ClimbingLinksFail | src/directory_listing/dir.rs:161-183 | a page on which every link leads to another directory |
| Listing.SchemeLinksFail | src/directory_listing/dir.rs:161-183 | a page on which every link reads as one of another scheme |
| Lookup.PrecompressedVariant | src/compression_static.rs:62-123 | the first coding in order whose sibling exists and is not a directory |
| Lookup.VariantInIff | src/compression_static.rs:70-122 | a variant exists in a coding iff a file stands beside with the name and `.gz`, `.br` or `.zst` |
| Lookup.VariantIsBest | src/compression_static.rs:70-122 | the variant's coding belongs to a best item by quality and priority among those with such a sibling; none iff no item has one |
| Lookup.TryMetadataWithHtmlSuffix | src/fs/meta.rs:49-74 | moves the path to the suffixed file iff that exists, and restores it otherwise |
| Lookup.SuffixedIsSibling | src/fs/meta.rs:54-60 | the suffixed file is the sibling with `.html` behind the name |
| Lookup.TryIndex | src/static_files.rs:374-409 | one index file answers from the first of its places that hits, else all miss and the path is the loop's next |
| Lookup.SearchDirectory | src/static_files.rs:368-428 | a directory is answered from the first hit in the whole search order, else with the last index file appended |
| Lookup.GetComposedFileMetadata | src/static_files.rs:357-493 | the answer for every path, where the path is left, and that the last variant check is dead |
| Lookup.DirectoryIsAnswered | src/static_files.rs:368-428 | for configured single names, which index file a directory is answered from, told by the files that exist: variant before page, the suffixed page before all but the first, the last name if none is there |
| Lookup.DefaultIsIndexHtml | src/static_files.rs:370-374 | without configured index files it is `index.html` |
| Lookup.NoVariantUnlessStatic | src/static_files.rs:381-428 | without static compression no answer has a variant |
| Lookup.IterationRestoresIff | src/static_files.rs:377-401 | an index file tried in vain leaves the path as it was, iff it is a single name (or one of two degenerate cases) |
| Lookup.IterationMovesOn | src/static_files.rs:377-401 | an index file of two components moves the search into the first |
| Lookup.SearchStaysInPlace | src/static_files.rs:374-415 | with single names every place searched is in the directory or is its `.html` sibling |
| Lookup.AppendedIndexHasNoVariant | src/static_files.rs:411-421 | the index file appended in the end neither exists nor has a variant |
| Lookup.MetadataIsVariantsIff | src/fs/meta.rs:20-24 | for every answer with a variant, whose metadata it carries, and when that is the variant's |
| Lookup.MetadataDeparts | src/static_files.rs:418-428 | a file next to its variant is answered with the variant's path and the file's metadata |
| Lookup.DirectoryTakesVariants | src/static_files.rs:377-388 | a directory with an index file and its variant is answered with the variant's metadata |
| Lookup.MissingPathIsServedIff | src/static_files.rs:126-136 | a missing path is served iff it has no variant and its `.html` sibling exists |
| Lookup.CachedIndexAgreesIff | src/static_files.rs:110-123 | for a directory path that ends in a slash, the lookups with and without the cache name the same file and variant, iff the directory's first hit is its `index.html`, or the suffixed page that stands for it |
| Lookup.PlainIndexHasNoVariant | src/static_files.rs:391-428 | a plain index file is answered with its own metadata and no variant |
| Lookup.ListedFileIsServed | src/static_files.rs:104-136 | following the listing's link of a file serves that very file |
| Archive.WriteArchive | src/directory_listing_download.rs:113-161 | the stack loop terminates, writes the recursive traversal up to the first entry that cannot be appended, and finishes iff there is none |
| Archive.ArchiveIsPrefix | src/directory_listing_download.rs:123-154 | the archive is a prefix of the traversal, all of it iff links are not followed or no path that belongs dangles, and else it stops right before such a path |
| Archive.ArchiveHasEverything | src/directory_listing_download.rs:130-154 | every path without ignored names is written, iff links are not followed or none of these paths dangles |
| Archive.DanglingLinkEndsArchive | src/directory_listing_download.rs:149-154 | a dangling link costs a file that stands beside it |
| Archive.ArchiveHasNothingElse | src/directory_listing_download.rs:135-153 | every member is such a path, dangles only as a link, and is a directory iff it is descended into |
| Archive.ArchiveIsExactly | src/directory_listing_download.rs:130-154 | told by the tree alone: without a broken link to follow, the members are exactly the paths that lead somewhere and have no ignored name |
| Archive.MembersLead | src/directory_listing_download.rs:135-153 | in any case every member leads to a node, through directories and followed links, without a dot name if these are ignored, and is a directory iff it arrives at one |
| Archive.NothingBelowLinks | src/directory_listing_download.rs:133-136 | where links are not followed every path leads through directories only |
| Archive.ArchiveIsOrdered | src/directory_listing_download.rs:130-154 | no path is written twice and a directory precedes all it contains |
| Sorting.SortIsStable | src/proxy_sort.rs:12-16 | the sort is a sorted stable permutation |
| Sorting.StableSortIsUnique | src/headers_ext/quality_value.rs:80-90 | every sorted stable permutation, by whatever algorithm, is that one |
| Negotiation.ParseItem | src/headers_ext/quality_value.rs:49-67 | the loop over the parameters computes the item's trimmed name and its last quality |
| Negotiation.LastParseableWins | src/headers_ext/quality_value.rs:55-64 | the last parameter with a parseable q= decides, and without one the default |
| Negotiation.ItemIs | src/headers_ext/quality_value.rs:49-67 | an item's name is its first part and its quality that of the last `q=` that parses, else 1 |
| Negotiation.Iter | src/headers_ext/quality_value.rs:71-92 | the items of a header in stable (quality, priority) order |
| Negotiation.TryFromValues | src/headers_ext/quality_value.rs:94-118 | the values joined in order |
| Negotiation.FoldedSnoc | src/headers_ext/quality_value.rs:94-118 | each further value follows a comma and a blank |
| Negotiation.FoldingIsHomomorphic | src/headers_ext/quality_value.rs:72-118 | parsing the joined header concatenates the parses of its values, iff all or none are visible ASCII |
| Negotiation.PreferredIsBest | src/compression.rs:308-333 | the preferred encoding is the one available coding of highest (quality, priority), exists iff one is asked for, and heads get_encodings |
| Negotiation.PreferredByName | src/headers_ext/content_coding.rs:84-105 | by the names sent: zstd, br, gzip, deflate in this order at equal quality, and none iff no such name is sent |
| Routing.CompileTargets | src/proxy_compile.rs:72-122 | exactly one of target and targets is accepted, and yields one absolute URI per text |
| Routing.TargetsAcceptedIff | src/proxy_compile.rs:72-122 | when targets are accepted, and which fault is reported otherwise |
| Routing.RuleFaults | src/proxy_compile.rs:13-70 | glob, strip-prefix and targets are judged in this order |
| Routing.CompileProxyRules | src/proxy_compile.rs:13-70 | one aligned rule per definition in order, or the first definition's error |
| Routing.ResolveRules | src/proxy.rs:33-60 | TOML then control-plane definitions, sorted stably and compiled; kept or absent rules as in the source |
| Routing.ResolvedOrder | src/proxy_sort.rs:11-17 | the resolved order is the only sorted stable permutation of the merged definitions |
| Routing.PortIsTakenOff | src/proxy.rs:157-174 | the host of a `host:port` header is the host, whatever colons it has |
| Routing.HostOf | src/proxy.rs:157-174 | the authority decides; a header without a port is the host |
| Routing.PortsAreShortNumbers | src/proxy.rs:165-172 | what counts as a port |
| Routing.FindRule | src/proxy.rs:139-155 | the first rule for any host or exactly this one that matches the path, none iff there is no such rule or no host |
| Routing.FoundDefinition | src/proxy.rs:33-60 | the rule found is that of a definition for this host or any, whose glob matches, with its strip-prefix and targets |
| Routing.NoneFound | src/proxy.rs:139-155 | when no rule is found no definition is for this host and matches |
| Routing.FoundIsLongest | src/proxy.rs:144-153 | the rule found has the longest source of all accepting definitions, in whatever order they came |
| Routing.TiesGoToMoreWildcards | src/proxy_sort.rs:19-22 | of the accepting definitions of that length it has the most wildcards |
| Routing.FewestWildcardsWinIff | src/proxy_sort.rs:8-11 | the comment's tie-break holds iff all accepting definitions of that length have equally many wildcards |
| Routing.MoreWildcardsWin | src/proxy_sort.rs:19-22 | two accepting definitions for which it does not, in either order |
| Routing.EarliestWins | src/proxy_sort.rs:11-17 | of the accepting definitions level in both, it is the one merged first |
| Routing.TomlWins | src/proxy.rs:38-51 | so a TOML definition beats every control-plane definition it is level with |
| Routing.LongerPrefixWins | src/proxy_sort.rs:8-17 | a subtree rule for p/q always beats one for p below p/q/ |
| Routing.UpstreamUriForRule | src/proxy.rs:208-215 | one pick and the URI of that index; the out-of-range branch is dead |
| Routing.ForwardedUnderPrefix | src/proxy.rs:358-393 | end to end, a request below p with strip-prefix p is forwarded to the picked target at every counter value, unless the URI parser refuses the text |
| Upstream.TemplateOf | src/settings/mod.rs:258-277 | a template exists iff the target has a scheme and an authority |
| Upstream.BuildShape | src/proxy.rs:362-392 | the URI is origin, base without trailing slashes and rest, if the parser takes it; when each error arises; and how the incoming target is put together again |
| Upstream.ForwardedText | src/proxy.rs:362-392 | the text sent upstream, case by case |
| Upstream.SameUriIff | src/proxy.rs:367-388 | two targets give the same URI iff the same rest remains |
| Upstream.TargetIsRecoverable | src/proxy.rs:367-388 | the URI determines the target, up to the bare prefix with and without slash |
| Upstream.StripNeverFailsUnderPrefix | src/proxy.rs:375-381 | below its prefix a target never meets the strip-prefix error |
| Balancer.ProxyBalancer.NextIndex | src/settings/mod.rs:111-114 | the pick is the old counter modulo the targets, valid, and the counter moves on by one with wrap-around |
| Balancer.NewBalancer | src/settings/mod.rs:93-102 | fails iff there are no targets |
| Balancer.WindowIsFair | src/settings/mod.rs:110-114 | n consecutive picks hit each of n targets once |
| Balancer.CountsStayLevel | src/settings/mod.rs:110-114 | pick counts differ by at most one |
| Balancer.PicksAreValid | src/settings/mod.rs:110-114 | every pick is a valid index, also across the wrap |
| Balancer.WindowAcrossWrapIff | src/settings/mod.rs:111-114 | a window across the wrap is fair iff the number of targets divides the counter's range |
| Balancer.WindowAcrossWrapIsUnfair | src/settings/mod.rs:111-114 | a window over three targets that misses one |
| Tunnels.PermitsAreConserved | src/proxy.rs:254-331 | in every run free permits, waiting upgrades and live tunnels add up to the limit |
| Tunnels.RefusedIffFull | src/proxy.rs:261-266 | 503 is sent iff the limit is exhausted, never without one |
| Tunnels.PermitFollowsRequest | src/proxy.rs:261-328 | in every run, whatever other requests do between, the events of one request have taken exactly the permit it holds |
| Tunnels.FailureEndsRequest | src/proxy.rs:280-306 | an accepted request that fails ends as its failure says with its permit returned, other requests interleaved at will |
| Tunnels.TunnelKeepsPermit | src/proxy.rs:308-328 | a switched connection keeps its permit until its tunnel ends, whatever else happens, and no longer |
| Tunnels.AllPermitsReturn | src/proxy.rs:281-328 | when every request has ended all permits are back |
| Tunnels.ConfiguredLimitBinds | src/settings/mod.rs:846-848 | a limit other than zero bounds the live tunnels of every run |
| Tunnels.ZeroMeansUnlimited | src/settings/mod.rs:846-848 | a limit of zero refuses nothing |
| Tunnels.SettingRefusesIff | src/settings/mod.rs:846-848 | whatever the setting, a request is refused iff it is a number above zero with all of it taken |
| Substitution.ReplacementIsSimultaneous | src/redirects.rs:70-94 | replacing is simultaneous substitution of one-digit references, for any number of groups |
| Substitution.ReferenceIsGroup | src/redirects.rs:70-91 | wherever a one-digit reference stands, the text of its group is inserted, empty if it is unset |
| Substitution.NothingToReplace | src/redirects.rs:60-91 | a destination without a dollar sign is unchanged, and without a match there is an error |
| Substitution.DollarStays | src/redirects.rs:76-91 | a dollar sign without a group's digit behind it is kept |
| Substitution.SearchAtToken | src/redirects.rs:83-87 | at a reference the search stops right behind it with its group |
| Substitution.GroupIsReferencedIff | src/redirects.rs:76-91 | the reference of group k, anywhere in a destination, becomes that group's capture iff k has one digit or its capture is that of its first digit with the other digits behind |
| Substitution.TenthGroupIsShadowed | src/redirects.rs:76-87 | `$10` is read as `$1` and a zero |
| Substitution.DistributesIff | src/redirects.rs:87-91 | replacement distributes over a concatenation iff no reference is split, or its capture is its own text |
| Bootstrap.IntoProxyDefs | src/routes/document.rs:41-73 | all routes flattened in order, or the version's or the first faulty route's error |
| Bootstrap.AcceptedIff | src/routes/document.rs:41-73 | a document is accepted iff it is of version 1 and no route is faulty; else the version or a route's fault is reported |
| Bootstrap.NoRouteIsLost | src/routes/document.rs:49-71 | where each route of each application ends up with all its fields, and that there are no others |
| Bootstrap.AcceptedRoutesAreSafe | src/routes/document.rs:52-61 | accepted sources start with a slash and hold no `..`, and accepted routes never fail the compiler's strip-prefix check |
| Bootstrap.FetchRoutesDefs | src/routes/bootstrap.rs:22-88 | snapshot and outcome of one startup, for each policy, with and without a fetch, a cache path and a snapshot |
| Bootstrap.FailedFetchReplaysLast | src/routes/bootstrap.rs:22-88 | a failed fetch ends like a startup that fetched the document last fetched and written, or else the one first found on disk, over any sequence of startups |
| Bootstrap.SnapshotIsLastFetchedIff | src/routes/bootstrap.rs:42-48 | that is the document last fetched, iff it could be written or was the snapshot already |
| Bootstrap.UnwrittenIsForgotten | src/routes/bootstrap.rs:42-48 | a fetched document that no later start knows |
| FileSize.FormatFileSize | src/directory_listing/autoindex/html.rs:131-150 | the largest fitting unit, a value in [1, 1024) up to TiB, and less than 1/1024 of a unit lost by shifting |
| FileSize.UnitIsExact | src/directory_listing/autoindex/html.rs:137-149 | for every size and all six units, the unit shown and the size's power of 1024 determine each other |
| FileSize.UnitSizes | src/directory_listing/autoindex/html.rs:131-150 | the sizes of the units in bytes |

## Left out

- Sockets, TLS, HTTP clients, scheduling, logging, metrics, the command line and settings files: input and output around libraries.
- Compression codecs, the tar and gzip encoders, and I/O errors while an archive is written, which end the stream; that appending a followed link without a target fails is how the tar library, which is not part of the repository, is taken to behave.
- Sockets, pipes and devices below a downloaded directory.
- The text syntax of `Range`, date and ETag headers and of q-values: their parsed forms are inputs.
- Time-based expiry and admission of the cache: eviction may happen at any point of a run instead; capacity and size limit are arbitrary.
- The permit of `get_or_acquire`, which is dropped at once and orders nothing.
- Pre-compressed variants in the runs of `CacheRuns`, as said above; `CacheRuns.VariantKeepsStoreSoundIff` covers one body of a variant.
- Variants.AnswerKeepsStoreSoundIff: leaves out the answer that carries a directory's own metadata, which only an index file of several components can bring about; for it `CacheRuns.VariantKeepsStoreSoundIff` holds as for any metadata.
- The path a request resolves to when the cache is on: `src/static_files.rs:113-115` then appends `index.html` to a path that ends in a slash before any index file is searched, so there a server with a cache and one without can answer from different files. `Lookup.CachedIndexAgreesIff` says when they do not, unless `index.html` is itself a directory or an index file has several components; the theorems of `CacheRuns` speak of the resolved path.
- Percent-encoded dot segments such as `%2e%2e`, which browsers resolve beyond RFC 3986: only literal dots are dot segments of a link.
- Files that change while they are served, and dates before 1970.
- Symlink cycles in the archive: a followed link stands for a finite tree.
- Glob and regular-expression engines: a rule's matcher is arbitrary, captures are arbitrary; only what the engine does with a literal prefix and two stars is assumed where a lemma names it.
- The sorting algorithm of the standard library: its result is `Sorting.StableSort`, which `Sorting.StableSortIsUnique` shows to be the only possible one.
- Resolution of `..` inside configured index files: the model's file system looks paths up as they are.
- Header copying, forwarded-for headers and hop-by-hop header removal of the proxy: one decision per header.
- Windows path prefixes and backslashes, and non-ASCII white space in trimming.
- Rendering of listings, error pages, security and custom headers, CORS, authentication, health and maintenance checks: single decisions that would only add easy members.
- The rounding of sizes to two decimals.
