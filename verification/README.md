# A verified model of HTTrack's stateful core

HTTrack copies web sites. Four parts of it keep state that is easy to get wrong, and
this project models them in Dafny and proves what they keep.

**The cookie jar** (`src/htsbauth.c`) is one bounded char buffer of tab-separated lines
that acts as an ordered set of records. `CookieText`, `CookieStore` and `JarOrder` say what
the buffer means: a sequence of records with a ghost clock for the time of the last store.
`EvictionPlan` is the naive eviction plan, `EvictionLaws` its properties, and `CookieTally`,
`CookiePlanner`, `CookieSort` and `CookieGreedy` the code that computes it with a hash
table, a sort and a greedy loop. `CookieSetLaws` says what a set and a removal leave, and
`CookieJar` is the buffer code itself, on an array.
`CookieFile`, `CookieFileLaws`, `CookieReload` and `CookieFileIo` are the cookies.txt printer
and loader, and `BasicAuth` the credential list.

**The slot engine** (`src/htsback.c`) is modelled as four machines over the slots:
`Chunked*` decodes the chunked transfer coding of RFC 9112, byte by byte in `Chunked` and
read by read in `ChunkedLink`, with the spelling of sizes in `ChunkedSize` and the encoder of
section 7.1 in `ChunkedBody`; `Backup*`
moves the previous copy of a file aside, commits and restores, over a map from path to
content where any rename may fail; `KeepAlive*` moves connections between slots; `Ref*` is
the codec of the `.ref` resume record.

**Login bundles** (`src/htsbundle.c`): `PublicSuffix`, `Scope`, `UnionFind`, `Bundles` and
`BundleIdentity` are the entries that URLs and scope lines write (with the registrable domain
of `src/htspsl.c`), the scope lists, the union-find with path halving, the merging load and
what identity a request gets. `Curl*` is the splitter of pasted bash commands, whose specification is a
grammar of spellings, and `Utf8` the encoding that its escapes decode to.

**The change accumulator** (`src/htschanges.c`): `Changes*` is one step for every stretch
of code that holds the lock, interleaved in any order, with the table that holds the
entries; `Json` the report's strings with a reader for them. **The arena and the argv over
it** (`src/htsarena.h`, `src/htsalias.c`) are `Arena` and `Cmdl`.

Code that changes state is a class or a method with loops, proved against functions on
values; what is promised about runs is proved about those functions. C integers are
unbounded here, with their widths stated where they matter (the expiries, `strtoull`, the
codec, `INT32_MAX` for chunks). Strings are one char or one number a byte.

Where the code and its text differ, or a wished-for property fails or needs a condition, the
model follows the code:

- The header `src/htsbauth.h` says that the first stored prefix wins, "not the longest";
  in every list that `bauth_add` builds the first is the longest (`BasicAuth.FirstIsLongest`).
- The cookies.txt form is not canonical for a host-only record whose domain opens with two
  dots, nor for the last expiries below `INT64_MAX` (`RereadPrints`, `ExpiryExact`).
- Scope entries are compared two by two (`src/htsbundle.c:294-313`). That finds every common
  host of the entries that URLs and scope lines write (`UrlEntryIsWritten`,
  `LineEntryIsWritten`, `CommonHostOverlaps`), because such a domain that is an address has a
  single dot; two other entries may cover a host and not overlap (`AddressEntriesMiss`,
  `CommonHostExact`).
- A home that lies outside its bundle's scope does not decide the identity on its hosts
  (`HomeOutsideScope`). The exact condition is a chain of compared bundles
  (`OneIdentityExactly`, `HostDecidesExactly`).
- A TAB in front of a chunk extension, which section 7.1.1 of RFC 9112 allows, is refused;
  every other body of that grammar is decoded (`GrammarDecodesExactly`). Outside the grammar a
  size may have a sign or 0x, and `-ffffffffffffffff` is one byte (`SizeExactly`).
- A re-fetch does not always leave the new file or the old copy. `back_finalize` drops the
  backup of a committed file, then reads a small page back into memory and unlinks its file,
  even when the read fails (`src/htsback.c:1395-1423`): a read error loses both
  (`UnreadPageIsLost`), and in no run anything else does (`RunIsSafe`).
- `back_delete` frees that memory, and without a cache it unlinks a pending backup
  (`NoCacheLoses`); `DeleteKeepsExactly` says when one of the two is left on disk. The cancel of
  a queued link (`src/htscore.c:2881-2899`) passes no cache, and takes a ready slot of its name
  that is not writing. A page in memory is one (`PageIsCancelled`), and a failed FTP transfer
  another, since it took a backup (`src/htsftp.c:1176`) and `back_wait` finalizes only those
  that succeed (`src/htsback.c:4125-4131`, `FailedFtpIsCancelled`). A ready slot whose new file
  could not be created gets its copy back from `back_finalize` (`FailedCreateRestores`).
- A failed `.delayed` placeholder is unlinked after its previous copy was put back
  (`DeleteKeepsExactly`).
- A 304 that the cache has no entry for marks the slot as a local file while it may hold its
  socket (`src/htsback.c:5187-5191`), and `deletehttp` closes no socket for a local file: it
  stays open (`MistakeLeaks`). Only that breaks the rule that one slot holds each open socket
  (`KeepAlive.RunOk`).
- A notify whose two critical sections straddle the close loses its `rewritten` flag
  (`CloseLosesTheFlag`), exactly when no earlier one had set it (`FlagIsLostExactly`), and one
  that straddles the free can fill another file's entry (`FreeMovesSlots`, `FreeExactly`).
- A cookies.txt file that repeats a record counts it as refused and still takes the last one;
  the load refuses empty names and paths of 256 bytes, which `cookie_set` stores
  (`LoadRecords`, `ParsesPrinted`).

## Model

| member | source | states |
|---|---|---|
| CookieStoreLaws.RunOk | src/htsbauth.c:170-259 | In every jar reached from the empty one by set, capped set and remove, the text stays below max_len, no two records share name, domain (case and leading dot aside) and path, path lengths never grow along the jar, and records of one path length are in the order they were last stored |
| CookieSetLaws.SetExactly | src/htsbauth.c:170-259 | cookie_set stores a record exactly when its parts are clean and it fits beside those of another identity with 256 bytes to spare; these then stay, all of them and in order, with the new one before the first shorter path |
| CookieSetLaws.SetCappedExactly | src/htsbauth.c:216-259 | cookie_set_capped does the same when the record fits; otherwise it stores it exactly when there is a plan, and the records left are those of another identity less the victims |
| CookieSetLaws.RemoveExactly | src/htsbauth.c:579-598 | After a removal exactly the records of another identity are left, in order |
| CookieSetLaws.RunStep | src/htsbauth.c:170-259 | In every run each operation is refused and changes nothing, or leaves exactly the records it should with its own in its place |
| CookieSetLaws.SameDomainExactly | src/htsbauth.c:298-306 | Two domains are one exactly when they are spelt alike, ASCII case and one leading dot aside |
| CookieStoreLaws.RunReadsBack | src/htsbauth.c:1934-1954 | In every reachable jar, reading field k of a line gives exactly the stored field k, and an empty string past the last |
| CookieStoreLaws.PlanGivesRoom | src/htsbauth.c:316-324 | Whenever the eviction plan succeeds, the room test that follows passes on the jar without the victims |
| CookieStoreLaws.EvictKeepsSelf | src/htsbauth.c:385-391 | Eviction never takes the record being replaced, and finds it again at its new place |
| CookieStoreLaws.StoreKeeps | src/htsbauth.c:232-256 | Replacing and inserting keeps length, identity and order of the jar |
| CookieStoreLaws.RemoveIsGone | src/htsbauth.c:579-598 | After a removal no record of that name, domain and path is left |
| CookieText.RecordAt | src/htsbauth.c:779-789 | The lines of a jar start where the lines before them end, and each field of each line is read back from the middle of the text |
| CookieText.LineFits | src/htsbauth.c:232-247 | A formatted record is at least 210 bytes shorter than the room that is asked for it |
| JarOrder.InsertOrdered | src/htsbauth.c:248-256 | A record put before the first shorter path, stamped last, keeps the jar ordered by path length and then by time of store |
| JarOrder.KeepOrdered | src/htsbauth.c:498-511 | Cutting any set of records out keeps the order of the rest |
| CookieJar.Jar.SetImpl | src/htsbauth.c:170-259 | On the char buffer, a set stores exactly the specified jar or leaves the buffer byte for byte as it was; which of the two is decided by the specification of the plain or the capped set |
| CookieJar.Jar.MakeRoom | src/htsbauth.c:392-521 | All or nothing: with a plan the victims are cut out of the buffer and nothing else changes; without one, or out of memory, the buffer is untouched |
| CookieJar.Jar.PlanVictims | src/htsbauth.c:409-497 | Hash tally, sort and greedy loop together compute the naive plan, and fail only when there is none |
| CookieJar.Jar.CutVictims | src/htsbauth.c:498-511 | The in-place compaction leaves the text of the survivors, in order |
| CookieJar.Jar.Fits | src/htsbauth.c:316-324 | The room test counts the record that would be replaced as free |
| CookieJar.Jar.BackstopIdle | src/htsbauth.c:232-247 | After the room test passes, the COOKIE_HEADROOM backstop never triggers |
| CookieJar.Jar.StoreIfRoom | src/htsbauth.c:216-259 | Stores the record exactly when there is room, and otherwise leaves the buffer untouched |
| CookieJar.Jar.FindRecord | src/htsbauth.c:525-537 | The scan finds the first record with the same name, domain and path, at its offset in the text |
| CookieJar.Jar.Erase | src/htsbauth.c:579-598 | A removal drops the record of that identity, and only it |
| CookieJar.Jar.InsertText | src/htsbauth.c:1897-1911 | In-place insertion: the buffer holds the text with the new line spliced in |
| CookieJar.Jar.DeleteText | src/htsbauth.c:1914-1927 | In-place deletion: the buffer holds the text without the bytes |
| EvictionLaws.PlanExact | src/htsbauth.c:392-521 | The plan succeeds with a list of victims exactly when that list is a greedy run (each victim is, when picked, the oldest record left of the largest host over its share, and there was not room yet) that ends with room; it fails exactly when the greedy run gets stuck |
| EvictionLaws.OnlyExcessGoes | src/htsbauth.c:308-383 | Each victim is of a host with more than 50 records or 8192 bytes, the largest of those and the first met of equal ones, and of that host has the shortest path and the first place; without a plan no such host has a record left that may go |
| EvictionLaws.OverExactly | src/htsbauth.c:326-331 | A host is over its share exactly when its records and the new one are more than 50 or make more than 8192 bytes |
| EvictionLaws.NextExact | src/htsbauth.c:474-497 | The next victim is uniquely determined by that rule |
| EvictionLaws.WithinShareKeepsAll | src/htsbauth.c:326-331 | A host within its share at the start loses nothing |
| EvictionLaws.VictimsAreOldest | src/htsbauth.c:374-383 | Within a host the victims are closed downwards in (path length, place), the replaced record aside |
| EvictionLaws.VictimsDistinct | src/htsbauth.c:486-496 | No record is evicted twice, and the replaced record never |
| EvictionLaws.EarlyExitIsSafe | src/htsbauth.c:457-467 | The early exit on `freeable` rejects only when the greedy loop would also end without room |
| CookieTally.Probe | src/htsbauth.c:434-443 | The open-addressed probe always ends, on the slot of the domain when it is there and on an empty slot exactly when it is not |
| CookieTally.TableInsert | src/htsbauth.c:438-443 | A host put where its probe ended leaves every host reachable |
| CookieTally.ChargeHost | src/htsbauth.c:432-450 | One record keeps the tally equal to a direct scan, host by host, count and bytes |
| CookiePlanner.TallyJar | src/htsbauth.c:425-456 | The whole pass: every host has the count and bytes of a direct scan of the jar, and the record being replaced is found |
| CookieSort.SortRecs | src/htsbauth.c:468-468 | The records are sorted by host, path length and place |
| CookieSort.SetStretches | src/htsbauth.c:469-473 | Each host gets exactly its own stretch of the sorted records |
| CookieGreedy.FreeableAgrees | src/htsbauth.c:457-465 | The sum over the hosts over their share equals the bytes of their evictable records |
| CookieGreedy.PickBest | src/htsbauth.c:475-485 | The first of the largest hosts over their share, or none |
| CookieGreedy.BestIsPicked | src/htsbauth.c:486-493 | The record the loop takes is the one the naive plan picks |
| CookieGreedy.EvictOne | src/htsbauth.c:486-496 | Every turn of the greedy loop evicts one record more or zeroes a host, and a measure falls either way |
| CookieGreedy.NoBestIsStuck | src/htsbauth.c:484-485 | When no host on the list is over its share, the naive plan is stuck too |
| CookieReload.FileIsCanonical | src/htsbauth.c:1611-1640 | Writing a jar to a file, header included, and loading it into an empty one without a refusal gives the records that have not expired, in the same order, and they print the same text; with room for them the load refuses nothing exactly when every record has a name, an expiry that is not negative and fields that fit the buffers of the loader |
| CookieReload.RunIsCanonical | src/htsbauth.c:1220-1397 | The same for the file of every jar reached from the empty one by set, capped set and remove, where a public suffix was always stored host-only |
| CookieReload.RepeatIsCounted | src/htsbauth.c:1338-1385 | Of two lines of one identity the last is in the jar and one counts as refused |
| CookieReload.MadeExactly | src/htsbauth.c:208-210 | A record is one that cookie_set makes exactly when it is host-only or its domain is no public suffix |
| CookieFileLaws.RereadPrints | src/htsbauth.c:283-299 | A reloaded record prints alike exactly unless it is host-only and its domain opens with two dots |
| CookieFileLaws.ExpiryExact | src/htsbauth.c:717-732 | An expiry parses back exactly if and only if it is below 10 * (INT64_MAX / 10 - 9) |
| CookieFileLaws.ParsesPrinted | src/htsbauth.c:1220-1397 | A printed line parses into the fields it was printed from, is passed over when the record has expired, and is refused exactly when it has no name, a negative expiry or a domain or path too long for the loader |
| CookieFileLaws.PrintsRecord | src/htsbauth.c:1611-1640 | The printer turns the jar line of a record into its Netscape form |
| CookieFileIo.RecordsText | src/htsbauth.c:1611-1640 | The printing loop gives the text of all records in order |
| CookieFileIo.LoadRecords | src/htsbauth.c:1220-1397 | From any jar, the loading loop gives the jar and the count of refused lines that the lines come to; a record that this load already met counts as refused and is still set |
| BasicAuth.LoginsOk | src/htsbauth.c:1973-2003 | In every credential list built by bauth_add no earlier prefix starts a later one |
| BasicAuth.KeyExactly | src/htsbauth.c:2044-2069 | A key is the longest start of scheme, host and path that ends in a slash and has no query in it, and there is one exactly below 2048 bytes |
| BasicAuth.CheckExactly | src/htsbauth.c:2022-2041 | A request is given the longest entry that starts its key; over https, without one, the longest that starts its key over http; else nothing |
| BasicAuth.AddExactly | src/htsbauth.c:1973-2003 | A login is stored exactly when no entry answers its key, both parts fit their fields and there is memory |
| BasicAuth.GivenOnOwnHost | src/htsbauth.c:2022-2041 | What a request is given was learned on its own host, over its scheme or over http |
| BasicAuth.FirstIsLongest | src/htsbauth.c:1961-1970 | The first prefix that matches is the longest that matches, strictly longer than any other |
| BasicAuth.HttpsStaysSecret | src/htsbauth.c:2022-2069 | A credential learned over https is never given to an http address |
| BasicAuth.AddAnswers | src/htsbauth.c:1973-2003 | A new credential answers for its own URL, and no address that was answered before gets another answer |
| BasicAuth.Credentials.Learn | src/htsbauth.c:1973-2003 | The list grows exactly as specified, or stays |
| BasicAuth.Credentials.Lookup | src/htsbauth.c:2022-2041 | The walk returns what the specification of the check returns |
| Scope.CommonHostOverlaps | src/htsbundle.c:294-313 | Two scope entries as the bundles write them, that cover a common host, always overlap |
| PublicSuffix.UrlEntryIsWritten | src/htsbundle.c:350-367 | Each entry that a URL adds is a host alone, or a domain with a dot inside and none in front, which is an address only when it has a single dot |
| PublicSuffix.LineEntryIsWritten | src/htsbundle.c:379-401 | The same for an entry of a scope line |
| PublicSuffix.RegistrableShape | src/htspsl.c:207-266 | The registrable domain ends the host, holds a dot, does not start with one, and is a number only with a single dot |
| PublicSuffix.SuffixExactly | src/htspsl.c:225-241 | The longest exception decides the public suffix, less its first label; else the longest rule, where *.x is one for x as well; else it is one label |
| PublicSuffix.UrlEntryCovers | src/htsbundle.c:350-367 | The entry of a URL covers its own host, and every host of the same registrable domain |
| PublicSuffix.LineEntryCovers | src/htsbundle.c:379-401 | The entry of a scope line covers the host it names, and every host below when it is no address |
| Scope.CommonHostExact | src/htsbauth.c:601-624 | Two domain entries that cover a common host overlap if and only if the longer is no address or they have one length |
| Scope.DomainMatchExactly | src/htsbauth.c:601-624 | A domain matches the host it spells, case and one leading dot aside, and every host below it that is no address |
| Scope.AddressEntriesMiss | src/htsbauth.c:601-624 | An address and a suffix of it, both as domain entries, cover a common host and do not overlap: why a written entry that is an address must have a single dot |
| Scope.CheckOverlap | src/htsbundle.c:711-724 | The nested loops decide whether the lists overlap |
| UnionFind.Root | src/htsbundle.c:743-747 | Path halving ends at the root of its tree and keeps the partition |
| UnionFind.Merge | src/htsbundle.c:813-813 | Joining two roots merges exactly their two groups |
| Bundles.GroupsAreComponents | src/htsbundle.c:799-816 | After the merging pass two bundles are in one group exactly when they are connected by overlapping scopes |
| Bundles.LoadGroups | src/htsbundle.c:799-829 | The load succeeds exactly when all overlapping bundles are compatible; its groups are the connected components, and https_only is the OR over each |
| Bundles.SpreadHttps | src/htsbundle.c:817-823 | Each bundle ends with the OR of its group, read through path-halving finds |
| BundleIdentity.NoHeadersOverHttp | src/htsbundle.c:843-864 | After a load, a plain-http request for a host gets no headers when any bundle connected to one that covers the host has an https URL |
| BundleIdentity.GivesExactly | src/htsbundle.c:843-864 | After a load a request gets the user agent of the first bundle covering its host, and the headers of that bundle exactly when it has some and the request is https or no connected bundle has an https URL |
| BundleIdentity.GivesNothing | src/htsbundle.c:843-864 | Without a covering bundle, or without a host, it gets nothing |
| BundleIdentity.NoHeadersFromFirst | src/htsbundle.c:843-864 | The same for any entries, stated from the first bundle that covers the host |
| BundleIdentity.HomeDecides | src/htsbundle.c:806-811 | On a host that a bundle has in its home and scope, all bundles covering the host have one identity |
| BundleIdentity.OrderDoesNotMatter | src/htsbundle.c:850-863 | There, every covering bundle would give what the first one gives |
| BundleIdentity.JoinedOrderDoesNotMatter | src/htsbundle.c:850-863 | A covering bundle that is joined to the first one gives a request what the first one gives |
| BundleIdentity.HomeOutsideScope | src/htsbundle.c:726-740 | A home outside its own scope decides nothing: three bundles that load and differ on a host |
| BundleIdentity.OneIdentityExactly | src/htsbundle.c:799-816 | Two bundles have one identity in every load of the same scopes and homes if and only if a chain of bundles, compared because their scopes and their homes overlap, joins them |
| BundleIdentity.HostDecidesExactly | src/htsbundle.c:806-811 | The bundles covering a host have one identity in every load if and only if they are all joined so |
| BundleIdentity.Identify | src/htsbundle.c:843-864 | The loop gives what the first covering bundle gives |
| ChunkedLaws.TakeByteOk | src/htsback.c:4472-4714 | At every byte: totalsize is the sum of the sizes read, size is the length of the body and at most totalsize, and chunk_blocksize is -1 exactly when the zero-size chunk was read |
| ChunkedBody.WellFormedDecodes | src/htsback.c:4472-4714 | A well-formed body of section 7.1 of RFC 9112 within the limits ends READY, stored, with its data intact |
| ChunkedSize.SizeExactly | src/htsback.c:4512-4523 | A text is a chunk size exactly when it spells one in base 16, in digits of either case, after an optional sign and 0x, and an int holds it; a minus counts back from 2^64 |
| ChunkedSize.SizeLineExactly | src/htsback.c:4487-4577 | A line of blanks, a size and an extension adds the size to the total, which a limit may then refuse, and opens its data or the trailers; without a size, or from 32 bytes on, it ends the transfer in error |
| ChunkedSize.DataEndExactly | src/htsback.c:4578-4602 | Past the data of a chunk a blank line lets the next size come, and any other ends the transfer in error |
| ChunkedLaws.LinesInOneRead | src/htslib.c:2864-3041 | However many bytes one line read takes, the slot ends as if they had come one by one |
| ChunkedLaws.BodyInOneRead | src/htsback.c:4334-4352 | The same for a read of body bytes |
| ChunkedLaws.CutIsRefused | src/htsback.c:1152-1183 | A stream cut before the zero-size chunk is not stored by a non-tolerant back_finalize and is classed as a connection error |
| ChunkedLaws.TolerantKeeps | src/htsback.c:1152-1154 | A crawl that tolerates broken files stores what came of a transfer that was cut |
| ChunkedLaws.StoredTransfer | src/htsback.c:1146-1189 | What is stored, in any run of any bytes, is the whole body with its last chunk seen |
| ChunkedBody.TabRefused | src/htsback.c:4494-4521 | A size line with a TAB in front of its extension is no chunk size, and ends the transfer in error wherever it comes |
| ChunkedBody.GrammarDecodesExactly | src/htsback.c:4472-4714 | A body of the grammar of section 7.1 of RFC 9112 within the limits is stored with its data intact if and only if no size line has a TAB in front of its extension, and ends in error otherwise |
| ChunkedLink.Link.ReadLines | src/htslib.c:2864-3041 | The reader stops at the line end it waits for and fails only on a full line buffer |
| ChunkedLink.Link.SizeHere | src/htsback.c:4509-4592 | A size line moves the slot as specified, the totals before the limits |
| ChunkedLink.Link.Receive | src/htsback.c:4310-4352 | A read of any length takes the slot where its bytes one by one would take it |
| ChunkedLink.Link.ReceiveAll | src/htsback.c:4310-4352 | A whole stream ends as its bytes one by one would, whatever is at hand at each read and however much each read takes |
| ChunkedLink.Link.End | src/htsback.c:4636-4714 | A cut connection is finalized and classed as specified |
| BackupLaws.RunIsSafe | src/htsback.c:1010-1423 | In every run of a slot, whatever renames and creations fail, the new file as committed or the old copy is on disk or read back into memory, if and only if no page was unlinked that could not be read; a coded body puts the file itself under the same rule |
| BackupLaws.StepOk | src/htsback.c:1137-1423 | A step keeps one of the two exactly unless it takes off the disk the small page that was committed, and cannot read it |
| BackupLaws.CommitsOnlyWhole | src/htsback.c:1146-1423 | The old copy is dropped only for a whole body received without error, which is then under the name of the file, or was a small page, read into memory or lost |
| BackupCommits.WholeCommits | src/htsback.c:1047-1083 | A whole body that came as it is takes the place of the old copy exactly when one is pending, and the backup is gone |
| BackupCommits.DecodedCommits | src/htsback.c:1246-1364 | A coded body takes the place of the file exactly when it was decoded whole and could be renamed; else the file stays |
| BackupCommits.OthersRestore | src/htsback.c:1047-1083 | Any other end puts the old copy back, or leaves it at its backup name |
| BackupCommits.RunHolds | src/htsback.c:1010-1083 | In every run the file being written holds the bytes written so far, and what is committed is all of them in order |
| BackupCommits.RefetchCommits | src/htsback.c:1371-1380 | A re-fetch over a copy moved aside that ends whole commits exactly the bytes it received |
| BackupCommits.FtpCommits | src/htsback.c:4125-4131 | So does a whole FTP re-fetch |
| BackupCommits.OnlyPlaceholdersGo | src/htsback.c:2485-2492 | With nothing to settle and no cache, back_delete unlinks the file of a placeholder that is written to or failed, and leaves any other |
| BackupCommits.CancelSpares | src/htscore.c:2893-2896 | The cancel touches no slot of another name, nor one that is not ready, a test or writing |
| BackupLaws.DeleteKeepsExactly | src/htsback.c:2480-2560 | back_delete leaves the new file or the old copy on disk exactly when: for a discarded placeholder, a backup is left that is not pending or meets a cache; for a slot it finalizes, no page is taken off the disk; with a backup pending and no cache, the file still is the copy; otherwise, the file or a backup is there |
| BackupLaws.CacheKeepsBackup | src/htsback.c:2509-2521 | With a cache a pending backup is kept or replaced on disk, exactly unless the new file is a page that is read back |
| BackupLaws.NoCacheLoses | src/htsback.c:2551-2557 | Without a cache back_clear_entry unlinks the pending backup and the copy is lost |
| BackupLaws.CancelKeepsExactly | src/htscore.c:2881-2899 | Cancelling a queued link whose slot has its name, is ready and is not writing leaves one of the two on disk exactly when, with a backup pending, the file still is the copy, and with none, the file or a backup is there |
| BackupLaws.FailedFtpIsCancelled | src/htsback.c:4125-4131 | A failed FTP transfer is left ready with its backup pending, and cancelling its link leaves its bytes in place of the copy |
| BackupLaws.PageIsCancelled | src/htscore.c:2881-2899 | A small page that replaced the old copy is in memory alone, its slot is one that the cancel takes, and then neither the file nor the backup is on disk |
| BackupLaws.UnreadPageIsLost | src/htsback.c:1395-1423 | When that page cannot be read back neither is left |
| BackupLaws.FailedCreateRestores | src/htsback.c:1053-1080 | When the new file was never created, back_finalize puts the old copy back, or leaves it at its backup name when it cannot |
| BackupLaws.TmpNamesDiffer | src/htsback.c:930-945 | Two paths, or two uses of one path, never share a temporary name |
| BackupLaws.OthersAreSafe | src/htsback.c:1010-1083 | A step of one slot never disturbs the copy another slot moved aside |
| BackupSlot.SlotFile.RefetchBackup | src/htsback.c:1010-1034 | Moves the file aside, with its second attempt, or remembers no backup |
| BackupSlot.SlotFile.FinalizeBackup | src/htsback.c:1047-1083 | Drops the backup for a file that exists, and otherwise puts it back or leaves it |
| BackupSlot.SlotFile.DecodeBody | src/htsback.c:1246-1364 | Decodes beside the file and replaces it only when whole |
| BackupSlot.SlotFile.ReadPageBack | src/htsback.c:1395-1423 | A small page written to disk is read into memory and unlinked, or unlinked and lost |
| BackupSlot.SlotFile.FinalizeHere | src/htsback.c:1137-1189 | back_finalize moves the slot and the files as specified |
| BackupSlot.SlotFile.DeleteHere | src/htsback.c:2480-2524 | back_delete moves the slot and the files as specified, and leaves one of the two on disk exactly when its condition says so |
| KeepAlive.RunOk | src/htsback.c:1633-1677 | After every step of a run each open socket is held by exactly one slot, no slot holds a closed one, and no slot of a local file holds any, if and only if no slot was marked as a local file while it held a socket |
| KeepAlive.TakesOverExactly | src/htsback.c:2245-2304 | A slot takes over a connection exactly when one is idle to its address, in time and verified, and only such a one, with its settings |
| KeepAlive.KeptExactly | src/htsback.c:2149-2189 | A finished transfer keeps its connection exactly when user and server agree, requests and time are left and the socket is sound; it is cleared otherwise |
| KeepAlive.ParksExactly | src/htsback.c:2192-2242 | A connection is moved to another slot exactly when it may be used again and a slot is free or idle; it is closed otherwise |
| KeepAlive.SearchesExactly | src/htsback.c:2307-2330 | A free slot is taken before an idle one, whose connection is closed |
| KeepAlive.RunKeepsIdle | src/htsback.c:2149-2242 | In every run an idle slot holds a connection with requests left and a known start, and a free one holds none |
| KeepAlive.MistakeLeaks | src/htsback.c:5187-5191 | A slot marked so leaks its socket however it gives it up: the socket stays open and no slot holds it |
| KeepAlive.MayDeleteHttpOk | src/htsback.c:2192-2242 | Parking a connection in a slot of its own neither leaks nor doubles a socket, even when it takes over an idle slot |
| KeepAlive.TryLiveOk | src/htsback.c:2245-2264 | Taking over an idle connection closes what the slot held and leaves one holder |
| KeepAlive.MayDeleteHttpSpares | src/htsback.c:2192-2242 | The slot loses its socket and keeps its status; no working or finished slot other than it changes |
| KeepAlive.CountBoundsSockets | src/htsback.c:917-928 | When no finished transfer holds a socket, the live count bounds the open sockets |
| KeepAliveTable.Table.LetLive | src/htsback.c:1633-1657 | Taking the connection out, clearing the slot and putting it back keeps just the connection |
| KeepAliveTable.Table.MayDeleteSlot | src/htsback.c:2149-2189 | The slot is cleared or becomes an idle connection, as specified |
| KeepAliveTable.Table.MayDeleteHttpSlot | src/htsback.c:2192-2242 | On the slot table, as specified |
| KeepAliveTable.Table.TryLiveSlot | src/htsback.c:2245-2264 | On the slot table, as specified; reports whether a connection was found |
| KeepAliveTable.Table.SearchSlot | src/htsback.c:2307-2330 | A free slot, or the first idle one after closing its connection |
| KeepAliveTable.Table.Clean | src/htsback.c:3343-3431 | Working slots stay as they are, no finished transfer keeps a socket, and with a limit either the open sockets are within it or no slot is idle |
| RefCodecLaws.ReadsBack | src/htsback.c:2016-2090 | Reading a written record gives the slot back, normalised, over the whole ranges of its fields, exactly when there is memory for its body and its headers, of which none is asked for empty ones; strings longer than their buffers come back clipped |
| RefCodecLaws.LocationExactly | src/htslib.c:1317-1319 | A location is blanked exactly when it has ?>post anywhere in it |
| RefCodecLaws.ClippedExactly | src/htsback.c:1931-1957 | A string longer than its buffer is cut to fill it but for the NUL |
| RefCodecLaws.CutIsRefused | src/htsback.c:2043-2090 | Every proper prefix of a written record is refused, whatever memory there is |
| RefCodecLaws.NormalisedIsStable | src/htsback.c:2076-2090 | A second round trip changes nothing more |
| RefCodecLaws.RawMore | src/htsback.c:2043-2090 | A reader that was satisfied reads the same when bytes follow, and leaves them |
| RefCodecLaws.FieldBack | src/htsback.c:1881-1957 | Each kind of field comes back from its bytes, two's complement included |
| RefWriter.Writer.PutRecord | src/htsback.c:2016-2040 | Appends exactly the record, and succeeds exactly when every length is within its cap and the disk has room |
| RefWriter.Writer.PutU64 | src/htsback.c:1848-1855 | The shift loop writes the little-endian bytes |
| RefReader.Reader.GetRecord | src/htsback.c:2043-2090 | Reads exactly what the specification decodes, field into its own member, and refuses what it refuses |
| RefReader.Reader.GetStr | src/htsback.c:1931-1957 | The 1024-byte pieces leave the string clipped to its buffer and the file behind it |
| RefReader.Reader.GetLlint | src/htsback.c:1898-1906 | The cast without undefined behaviour is two's complement |
| ChangesLaws.RunOk | src/htschanges.c:189-222 | In every interleaving that frees only while no notify is under way, the index and the entries name each other, every notify under way is on its own slot of its file, and the digests of an entry are of one kind |
| ChangesLaws.ComparesOneKind | src/htschanges.c:469-513 | Whenever the report compares digests, in any interleaving of any threads and frees, both are of payloads or both of files on disk |
| ChangesLaws.InterleavingDoesNotMatter | src/htschanges.c:292-462 | Two interleavings with the same steps on a file, in the same order, record the same of it |
| ChangesLaws.RunIsLocal | src/htschanges.c:292-462 | The shared table gives each file what the file alone would get |
| ChangesLaws.ClosedIsFinal | src/htschanges.c:611-632 | After the close no step changes anything but what a report computes, and only another report changes that |
| ChangesLaws.ResolveForgets | src/htschanges.c:469-513 | A later report keeps nothing of an earlier one |
| ChangesLaws.FreeMovesSlots | src/htschanges.c:673-681 | Freeing the accumulator under a notify lets it fill another file's entry |
| ChangesLaws.FreeExactly | src/htschanges.c:673-681 | Freeing keeps every notify on its own slot if and only if none is under way |
| ChangesReport.EveryFileIsListedOnce | src/htschanges.c:611-632 | Every recorded file is in exactly one bucket, and the counts are the sizes of the buckets and add up to the index |
| ChangesBuckets.BucketExactly | src/htschanges.c:254-268 | The closing report lists exactly the files recorded, and each, from the events alone, as gone when the purge recorded it first and did not keep it; as new when it was rewritten and the previous mirror had none; as changed when it had one and the sizes, or else the digests, or else the word of the server say so; as unchanged otherwise; with its URL and its size on disk |
| ChangesBuckets.FactsExact | src/htschanges.c:292-462 | While the report is open the entry of a file says what the events said of it |
| ChangesBuckets.OverflowExactly | src/htschanges.c:189-222 | The report is marked incomplete exactly from the first step that records something there is no memory for |
| ChangesReport.RewrittenExact | src/htschanges.c:292-361 | While the report is open a file counts as rewritten, or has the flag under way, exactly when some notify since the last free said so and was recorded: the file had an entry or there was memory for one |
| ChangesReport.CloseLosesTheFlag | src/htschanges.c:611-632 | A flag under way when the report closes is lost, and the file is called unchanged |
| ChangesReport.FlagIsLostExactly | src/htschanges.c:611-632 | Of an open accumulator, a recorded rewrite is missing from the report that closes now and from every later one, exactly when a notify has the flag under way and the entry does not have it |
| ChangesReport.GoneExact | src/htschanges.c:412-432 | A file is listed exactly when something recorded it, and gone exactly when the purge recorded it first and did not keep it |
| ChangesReport.PagesExact | src/htschanges.c:363-410 | The digests compared for a page are those of its last payload and of the previous one given with it |
| ChangesTable.Table.Slot | src/htschanges.c:189-222 | The slot of a file, appended when new; failed allocations flag the report and change nothing else |
| ChangesTable.Table.NotifyBegin | src/htschanges.c:312-324 | The first critical section, on the array that moves when it grows |
| ChangesTable.Table.NotifyEnd | src/htschanges.c:340-361 | The second critical section |
| ChangesTable.Table.CloseHere | src/htschanges.c:602-632 | Resolves every entry, counts the buckets and closes |
| Json.ReadsBack | src/htschanges.c:105-141 | What is written is one JSON string of section 7 of RFC 8259, and reads as the input with every byte outside a well-formed sequence replaced by U+FFFD |
| Json.Utf8ReadsBack | src/htschanges.c:105-141 | Valid UTF-8 comes back byte for byte |
| Json.OutputIsUtf8 | src/htschanges.c:105-141 | Whatever the bytes, the output is valid UTF-8 |
| Json.OutputHasNoControl | src/htschanges.c:105-141 | No byte of the output is a control character |
| Json.Write | src/htschanges.c:105-141 | The loop appends exactly the specified string |
| Utf8.AcceptedIsEncoded | src/htscharset.c:1311-1357 | What the strict check accepts is the encoding of a scalar value |
| Utf8.EncodedIsAccepted | src/htscharset.c:1311-1357 | The encoding of every scalar value is accepted and read back |
| CurlLaws.AcceptedExactly | src/htsbundle.c:1204-1259 | A command is accepted exactly when it can be spelled with plain bytes, the two quotes and joins, and then in one way only |
| CurlLaws.QuotedListBack | src/htsbundle.c:1204-1259 | Any list of at most 1024 words without control bytes but TAB, quoted word by word in either way and joined with blanks, is split back into the list |
| CurlLaws.CommandBack | src/htsbundle.c:1204-1259 | Every spelling of a command is read as it was spelled |
| CurlLaws.ReadCommandOk | src/htsbundle.c:1204-1259 | Every command that is read is the spelling of what it is read as |
| CurlLaws.EscapeIsUtf8 | src/htsbundle.c:1163-1198 | Every character but NUL has an escape, with a surrogate pair past U+FFFF, and it decodes to the UTF-8 of section 3 of RFC 3629 |
| CurlLaws.HexEscape | src/htsbundle.c:1128-1162 | An escape of two hex digits, of either case, is the byte they spell |
| CurlLaws.LettersSay | src/htsbundle.c:1128-1162 | The letters n, r and t stand for LF, CR and TAB, of which only the TAB is let through |
| CurlLaws.JoinSaysNothing | src/htsbundle.c:1204-1259 | A continued line inside a word adds nothing to it |
| CurlLaws.SegmentIsLonger | src/htsbundle.c:1124-1127 | No piece of a word is shorter than what it decodes to |
| CurlSplit.AnsiQuote | src/htsbundle.c:1128-1200 | The pointer loop decodes a $'...' body as specified, with its errors, and never writes more bytes than it takes |
| CurlSplit.WordHere | src/htsbundle.c:1221-1246 | A word is decoded as specified and never longer than the bytes taken for it |
| CurlSplit.Split | src/htsbundle.c:1204-1259 | The splitter gives the words or the refusal of the specification |
| Arena.Arena.Take | src/htsarena.h:103-124 | A block aligned as asked, inside a live chunk and apart from all others; it fails only without room and memory, and then changes nothing |
| Arena.Arena.StrDup | src/htsarena.h:133-140 | The copy stays where it is and as it is, and so do all earlier ones; it fails only without room and memory |
| Arena.Arena.Grow | src/htsarena.h:77-96 | One chunk of the doubled size within bounds behind the old ones, exactly when it can be had, or nothing changed |
| Arena.Arena.Free | src/htsarena.h:143-153 | Every chunk is released exactly once |
| Arena.CutOk | src/htsarena.h:103-118 | A block cut behind the used bytes is aligned and apart from every block handed out |
| Arena.StringOk | src/htsarena.h:133-140 | Writing a new string leaves every other block as it was |
| Cmdl.Argv.Insert | src/htsalias.c:997-1018 | Sequence insertion on the three parallel arrays, exactly when there are slots and room for the token; a failure leaves their contents and argc as they were |
| Cmdl.Argv.Add | src/htsalias.c:1020-1022 | Appends, exactly when there are slots and room for the token, or changes nothing |
| Cmdl.Argv.Reserve | src/htsalias.c:947-978 | Room for the count, exactly when it is below the cap and the three arrays can be had; a half-done growth keeps the contents |
| Cmdl.Argv.MarkParam | src/htsalias.c:1024-1027 | Marks one token and nothing else |
| Cmdl.RowsInserted | src/htsalias.c:1007-1016 | Inserting into each array at one place inserts one row |

## Left out

- BundleIdentity.OrderDoesNotMatter: for a home that lies in its bundle's own scope; the exact condition is `BundleIdentity.OneIdentityExactly`.
- PublicSuffix.UrlEntryIsWritten: assumes that the public suffix list has no rule for a number, that its exceptions have a parent, and that the ASCII form keeps numbers as they are; `LineEntryIsWritten` assumes the same.
- CookieReload.FileIsCanonical: for records whose domain `cookie_host` leaves alone and does not start with `#`, that are not host-only with two leading dots, and whose expiry parses back; the two exact conditions are `RereadPrints` and `ExpiryExact`.
- ChangesLaws.RunOk: runs where `hts_changes_free_opt` comes only while no notify is under way; a free under one breaks the invariant (`FreeExactly`).
- BackupLaws.RunIsSafe: for paths outside the engine's own temporary directories, and one slot per path; that two slots never write one path is the caller's rule. A copy that could not be moved aside is overwritten, as the code warns, and nothing is promised of it.
- Cookie jar: failing allocations in `cookie_insert` and `cookie_delete`; in `cookie_make_room` they are one flag. The planning arrays are sequences and `qsort` an insertion sort.
- Cookie rules around the jar: `cookie_find`, `cookie_sendable`, Max-Age and Expires parsing, the rules of the public suffix list, IDNA and host refusal are parameters or absent.
- Cookie files: read errors, the flat cookie form, `.bak` recovery, fsync and the load filter.
- `jump_identification` and the parsing of addresses: an address comes with its scheme, login and host apart.
- Bundle files: parsing, name checks, clashes between bundle jars, and the secrets log. The scope lists, homes, user agent and headers come parsed.
- Chunked transfers: resumed ones (206), in-place decompression, and the freeing of the body on an error.
- Backups: the saving of a page in memory by the main loop, directories, permission bits, WARC spools, the renaming of `.delayed` placeholders to their final names, and the end of a run in a crash.
- Keep-alive: SSL state beyond "was verified", FTP slots, DNS and the select loop.
- The `.ref` codec: the destination buffers are values, so writing past one is not expressible; `SIZE_MAX` checks that cannot fail with 64-bit sizes.
- The accumulator: the allocation of the accumulator itself, and the JSON around the strings.
- The splitter: failing allocations, and what the options of the split command mean.
- The arena: sizes near `SIZE_MAX` in `cmdl_reserve`, and alignments above 8 bytes, which the arena does not promise.
- Sockets, TLS, FTP, DNS, proxies, decompression, the ZIP cache, the option tables, MIME hacks and callbacks.
