# cosfs: a verified model of the file-system core

cosfs mounts a Tencent COS bucket as a local directory. This project models the parts of it whose
correctness is hardest to see from one function alone, in Dafny, and proves what they promise:

* **Page lists and file entities.** A partly downloaded file is a local file, a run-length list of loaded
  pages and a remote object. `PageList` is refined to one flag per byte, and `FdEntity` to one flat file:
  any sequence of loads, reads, writes and truncates behaves like the same sequence on that flat file,
  and, under an exact condition, like a plain POSIX file.
* **Downloads.** A ranged download with retries against a network that may fail in any way leaves exactly
  the delivered bytes and touches nothing outside its range.
* **Multipart uploads.** The round loop of `S3fsMultiCurl` with retries, against a server that answers
  anything: it ends, and a completion is posted only for parts that tile the file and whose ETags were
  earned by their own slices, read from the file and sent under their own numbers. The upload without local
  cache posts chunks that tile every page.
* **Text formats.** Stat files, extended attributes (percent-encoding over a JSON-like text over base64),
  the canonical texts that are signed, and the part number in an upload address: what is read back is what
  was written, with the exact conditions where that fails.
* **In-memory structures.** The sorted rename list and the renaming of a directory, the object list of a
  bucket listing, the sorted header list, the stat cache, the table of open files and the growing
  response buffer, each with the invariant its users rely on.

Classes stand for the C++ classes and linked structures, with the same fields and step-by-step methods;
their abstract value is a sequence, a map or a ghost log. What the environment decides (system calls,
servers, threads that start, `random`, the clock, free disk space) is a parameter or an arbitrary value
(`:= *`), so every claim holds for every behaviour of it. Ghost counters record what goes wrong outside, and
the main operations are shown to fail only then.

## Where the code falls short of its own promise

The model follows the code. These results state exactly when a promise holds:

* A grown file shows remote bytes instead of zeros after it was cut below the size of the remote object:
  `size_orgmeta` is not updated. A run is POSIX for every content of the remote object exactly if no request
  grows the file while it is shorter than that object (`Sessions.OpenedRunForEvery`, `Sessions.ShrinkThenGrow`).
* `Load` clears the modify flag when it zero-fills, so that a flush uploads nothing and a low-disk read drops all
  pages. Both stay right exactly as long as no request that succeeds, other than a write, loads an unloaded byte
  beyond the remote object into a modified file, perhaps by reading ahead (`Sessions.RunClean`,
  `Sessions.FillsIfReached`); otherwise a written byte can be lost (`LostWrites.WriteIsLost`). Dropping alone is
  harmless a little longer, until such a file differs from the object (`Sessions.RunHarmless`).
* Opened with a stat file whose cache file is missing, a file shows zeros where the stat file says loaded
  (`FdEntities.OpenedWithoutCacheFile`).
* A truncate whose fsync fails resizes the local file but not the page list; that is consistent exactly if
  nothing is loaded beyond the new end (`FdEntities.UnsyncedTruncate`).
* `s3fs_strtoofft` reads hexadecimal text correctly exactly if it has no letter digits: its digit test
  takes letters first (`Decimal.HexReadCorrectly`).
* Extended attributes survive a round trip exactly if no name has a comma, colon or double quote
  (`Xattrs.BuiltIsParsed`). The create and replace flags look at the whole header, not at the attribute.
* A listing without slashes has duplicates exactly if both "/" and "//" are normalized entries, which depends
  on the order of insertion; without names that start with two slashes there are none
  (`ObjectLists.S3ObjList.GetNameList`, `ObjectLists.ListWithoutDuplicates`, `ObjectLists.ListWithDuplicate`).
* A retried part keeps its number, or the retry is refused because the object's address contains the
  text "partNumber" or "uploadId" (`PartUrls.PartNumberReadBack`, `PartUrls.UploadIdReadBack`).
* Posting a file up to a size posts more than asked unless a page ends there (`PostPlans.PlanExact`),
  and the parts of a whole file are acceptable to the service exactly if every page but the last reaches
  the minimum part size (`PostPlans.PlanAccepted`). Afterwards all posted bytes count as loaded although the
  local file is empty, unless the file was (`NoCachePosts.EmptiedIsNotHeld`).
* The retry branch of a round is never taken: a round is only looked at when all its codes are below 400
  (`MultipartUploads.MultiCurl.MultiRead`).
* A stat that is looked up often enough never expires (`StatCaches.ServeOld`); its age is bounded by the number of
  lookups only.
* A renamed directory whose object has the folder suffix is cloned after the directories below it and removed
  before them (`Renames.ParentOrder`).
* The two canonical header texts name the same headers exactly if no list item is a signed name without a
  colon (`Headers.NamesAgree`); lists made by `curl_slist_sort_insert` have none.
* `AJUST_BLOCK` as it expands asks for far more memory than the rounding it is meant to be
  (`BodyDatas.GrowthFits`).

## Files

| files | what they hold |
|---|---|
| `Pages`, `PageLists`, `PageListText`, `Decimal` | page lists, their byte view, the stat file text, number parsing |
| `LocalFiles`, `Downloads`, `FdEntities`, `Sessions`, `LostWrites` | local files, ranged downloads, the file entity, whole runs, the run that loses a write |
| `PartUploads`, `EtagHeaders`, `MultipartUploads`, `ParallelUpload`, `PartUrls`, `HeadRequests`, `PostPlans`, `NoCachePosts` | uploads and rounds of requests |
| `PercentCoding`, `Base64`, `Xattrs` | the extended-attribute header |
| `MvNodes`, `Hierarchy`, `Renames`, `ObjectLists` | renaming and listing directories |
| `Headers`, `HeaderNames`, `Texts` | request headers and the texts that are signed |
| `StatCaches`, `FdManagers`, `BodyDatas` | the stat cache, the table of open files, the response buffer |
| `Bytes`, `Errno`, `Fields`, `Ints`, `Ordering`, `Sequences`, `Sums`, `Wrappers` | shared definitions |

## Model

| member | source | states |
|---|---|---|
| PageLists.PageList.Compress | src/fdcache.cpp:302-325 | no byte changes its flag, and the list becomes the one canonical run list of its byte view |
| PageLists.PageList.Parse | src/fdcache.cpp:327-342 | makes a position inside the file a page boundary, adds no other boundary and changes no byte's flag |
| PageLists.PageList.Resize | src/fdcache.cpp:344-375 | the byte view is cut, or extended with the given flag, and the list is canonical |
| PageLists.PageList.Cut | src/fdcache.cpp:356-369 | erasing and shortening pages keeps exactly the flags below the size |
| PageLists.PageList.IsPageLoaded | src/fdcache.cpp:377-391 | true exactly if every byte of the clipped range is loaded; exact also for the empty file |
| PageLists.PageList.SetPageLoadedStatus | src/fdcache.cpp:393-429 | sets exactly [start, start+size), extends a short list with unloaded bytes, changes no other bit, keeps a gap-free tiling |
| PageLists.MarkFlags | src/fdcache.cpp:416-426 | flagging the pages between two page boundaries sets exactly the bytes between them |
| PageLists.PageList.GetTotalUnloadedPageSize | src/fdcache.cpp:445-481 | the number of unloaded bytes in the clipped range |
| PageLists.PageList.GetUnloadedPages | src/fdcache.cpp:483-520 | the unloaded runs of the clipped range in order, neighbours merged |
| PageLists.UnloadedRunsAreMaximal | src/fdcache.cpp:483-520 | those runs are exactly the maximal unloaded runs: ordered, separated, inside the range, covering every unloaded byte |
| PageLists.UnloadedRunsSum | src/fdcache.cpp:445-520 | the listed runs add up to the unloaded total of the same range |
| PageLists.CountZero | src/fdcache.cpp:377-481 | the unloaded total is zero exactly if every byte of the range is loaded |
| Pages.RunsAreCanonical | src/fdcache.cpp:302-325 | the canonical list is tiled, has no empty page and no equal neighbours, and has the given byte view |
| Pages.CompressedIsRuns | src/fdcache.cpp:302-325 | a compressed list of non-empty pages is determined by its byte view |
| PageListText.SerializeOut | src/fdcache.cpp:527-542 | the text of the output branch: the size and one line for each page |
| PageListText.SerializeIn | src/fdcache.cpp:544-626 | accepts exactly the well-formed texts whose size check passes and rebuilds the list they describe, else leaves an empty list |
| PageListText.PrintedIsRestored | src/fdcache.cpp:522-626 | reading back what was written passes the size check and gives the same byte map; a compressed list comes back page for page |
| PageListText.WrongSizeRefused | src/fdcache.cpp:560-640 | a text whose lines can be read is accepted if and only if its first line is the end of what they describe |
| PageListText.OtherSizeRefused | src/fdcache.cpp:560-640 | the page lines of a list behind a first line of another number are refused |
| PageListText.ShortLineRefused | src/fdcache.cpp:560-640 | a page line with fewer than three fields makes the text refused |
| Decimal.StrToOffset | src/string_util.cpp:37-78 | the number read from any string: blanks, prefix, base, first character that is refused |
| Decimal.ValueOfPrint | src/string_util.cpp:37-78 | parsing inverts decimal printing for every non-negative number |
| Decimal.BlanksSkipped | src/string_util.cpp:44-62 | leading blanks, tabs and line breaks of any kind are skipped |
| Decimal.NothingElseSkipped | src/string_util.cpp:44-62 | and no other character is |
| Decimal.HexReadCorrectly | src/string_util.cpp:52-75 | hexadecimal text is read correctly if and only if it has no letter digits |
| Decimal.HexLetterMisread | src/string_util.cpp:61-75 | 0xA is read as 17 |
| Downloads.RangeRequest.DownloadWriteCallback | src/curl.cpp:807-839 | takes at most the rest of the range, writes what it takes at the current position, never outside the range; it takes less than the whole block only when that is longer than the range or a pwrite failed or fell short |
| Downloads.RangeRequest.Perform | src/curl.cpp:807-839 | one attempt that succeeds has written all delivered blocks back to back; any attempt stays inside the range; it ends otherwise than the network said only when the blocks are too long or a pwrite fell short |
| Downloads.RangeRequest.RemakeHandle | src/curl.cpp:1755-1762 | the next attempt starts again at the beginning of the range and is counted |
| Downloads.RangeRequest.RequestPerform | src/curl.cpp:1904-2100 | at most `retries` attempts, in which only transient answers (5xx, 409, the listed curl codes, a CA bundle just located) are followed by another one; 403 gives -EPERM, 404 -ENOENT and any other refusal -EIO at once; on success the last attempt's data stands in the range whatever failed attempts left, and no byte outside ever changes; it fails only when some answer is refused or too long, or a system call failed |
| Downloads.JudgeIs | src/curl.cpp:1935-2085 | the switch accepts, repeats and refuses exactly as the codes say |
| Downloads.AttemptedSuccess | src/curl.cpp:1904-2100 | a request succeeds if and only if its last answer is accepted |
| Downloads.GetObjectRequest | src/curl.cpp:2683-2705 | success with an honest server means the range now holds the remote bytes |
| Downloads.ParallelGetObjectRequest | src/curl.cpp:1396-1447 | the chunks together fetch exactly the requested range |
| LocalFiles.PWriteTwice | src/curl.cpp:807-839 | pieces written one behind the other are one write of their concatenation |
| LocalFiles.PWriteOver | src/curl.cpp:1755-1762 | what an earlier attempt left inside a range is gone once the whole range is written |
| FdEntities.FillFile | src/fdcache.cpp:642-654 | zeros exactly the given range, in pieces of at most 32 KB; it fails only when a pwrite does |
| FdEntities.FdEntity.constructor | src/fdcache.cpp:752-888 | a freshly opened entity shows the remote object cut or zero-extended to its size |
| FdEntities.FdEntity.OpenCached | src/fdcache.cpp:752-888 | opened with a cache file and its stat file, at a known or unknown size, in every combination of readable and missing files: the resulting flags and local bytes |
| FdEntities.ReopenedIsSame | src/fdcache.cpp:712-888 | a file closed with its stat file and opened again is the same flat file |
| FdEntities.OpenedWithoutCacheFile | src/fdcache.cpp:797-811 | with the stat file but without the cache file, the flat file is the remote object, whatever it holds, if and only if the stat file has none of its bytes as loaded |
| FdEntities.FdEntity.Download | src/fdcache.cpp:1150-1174 | success with an honest server means the local file got exactly the wanted part of the remote object; a large part is requested in ranges of at most the part size, unless multipart is off |
| FdEntities.FdEntity.LoadRun | src/fdcache.cpp:1142-1187 | one unloaded run downloaded or zero-filled: the flat file stays as it is, the run becomes loaded, the flag is cleared exactly by a zero-filled part |
| FdEntities.FdEntity.Load | src/fdcache.cpp:1123-1192 | never changes the flat file, even when downloads fail; on success exactly the clipped range becomes loaded; the modify flag survives if and only if no byte beyond the remote object got loaded; it fails only when a system call or a server did |
| FdEntities.FdEntity.Evict | src/fdcache.cpp:1590-1597 | forgetting all pages clears every flag and turns the flat file into the remote bytes; with both truncates done the local length fits again |
| FdEntities.LoadSize | src/fdcache.cpp:1561-1610 | a read inside the file loads to the prefetch size or its own size, whichever is more, but not beyond the end; any other one loads what it asks for |
| FdEntities.FdEntity.Read | src/fdcache.cpp:1561-1623 | returns exactly the slice of the flat file; reading changes it only by a forced reload or by eviction; on success exactly the prefetched range becomes loaded if anything asked for was missing, else nothing; the modify flag survives if and only if that range has no unloaded byte beyond the remote object; it fails only when a system call or a server did |
| FdEntities.FdEntity.MakeLoaded | src/fdcache.cpp:1582-1615 | the part of a read before the data is there: which pages it drops and which it loads, and what becomes of the modify flag, also when it fails |
| FdEntities.FdEntity.Write | src/fdcache.cpp:1625-1712 | changes exactly the written slice of the flat file and fills a gap with the backing bytes; which bytes become loaded, and what a failed write loads and does to the modify flag; fewer bytes are taken only when a system call or a server failed |
| FdEntities.FdEntity.Ftruncate | src/fdcache.cpp:1722-1748 | cuts the flat file or grows it with the backing bytes, and refuses as the code does; a failing fsync leaves the local file resized and the page list not; with another holder and no upload under way it fails only when a system call did |
| FdEntities.UnsyncedTruncate | src/fdcache.cpp:1737-1741 | after such a failure the entity is still consistent if and only if nothing is loaded beyond the new end, and then it is the same flat file |
| FdEntities.FdEntity.Dup | src/fdcache.cpp:737-746 | one more holder |
| FdEntities.ViewAfterLoading | src/fdcache.cpp:1142-1187 | marking bytes as loaded cannot be seen when the local file holds their backing bytes |
| FdEntities.ViewAfterWrite | src/fdcache.cpp:1667-1677 | writing locally and marking the range is one write into the flat file |
| Sessions.Serve | src/fdcache.cpp:1123-1748 | any sequence of loads, reads with or without disk space, writes and truncates is the same sequence on one flat file with flags; every read returns its slice at that moment and loads exactly its prefetched range; local length and list size stay equal; while nobody else holds the file no truncate changes its length; as long as nothing fails outside, every request succeeds and every write takes all its bytes |
| Sessions.OverlayIsPosix | src/fdcache.cpp:1625-1712 | a write zero-extends if and only if the gap it opens has zero backing bytes |
| Sessions.ResizedIsPosix | src/fdcache.cpp:1722-1748 | a truncate zero-extends if and only if the bytes it adds have zero backing bytes |
| Sessions.OverlayForEvery | src/fdcache.cpp:1625-1712 | a write zero-extends for every content of a remote object of size n, if and only if it leaves no gap behind an end below n |
| Sessions.ResizedForEvery | src/fdcache.cpp:1722-1748 | a truncate zero-extends for every content of a remote object of size n, if and only if it does not grow a file shorter than n |
| Sessions.StepForEvery | src/fdcache.cpp:1123-1748 | the same for any request |
| Sessions.OpenedRunForEvery | src/fdcache.cpp:1123-1748 | a run on an opened file is the POSIX run at every moment, for every content of a remote object of size n, if and only if no request grows the file while it is shorter than n |
| Sessions.RunIsPosix | src/fdcache.cpp:1123-1748 | a run that never cuts the file below the remote object is a run of a plain POSIX file |
| Sessions.ShrinkThenGrow | src/fdcache.cpp:1722-1748 | cutting below the remote object and growing again brings remote bytes back |
| Sessions.OpenedIsRemote | src/fdcache.cpp:752-888 | opened with the size of the remote object, the flat file is the remote object |
| Sessions.EvictionHarmless | src/fdcache.cpp:1590-1597 | dropping all pages changes the flat file exactly where a loaded byte differs from its backing byte |
| Sessions.StepHarmless | src/fdcache.cpp:1123-1748 | a request keeps "not modified means dropping is harmless" if and only if it does not zero-fill a modified file that differs from the remote object |
| Sessions.RunHarmless | src/fdcache.cpp:1123-1748 | in every run from such a state it holds at every moment if and only if no request does that |
| Sessions.FillsIfReached | src/fdcache.cpp:1142-1184 | on a modified file only a request whose range has an unloaded byte beyond the remote object fills bytes with zero, and a load or a read that succeeds always does then: its caller can see it before |
| Sessions.SpoilsIfFills | src/fdcache.cpp:1142-1184 | so a request that succeeds spoils a file if and only if the file differs from the remote object and the request does that |
| Sessions.LoadZeroFills | src/fdcache.cpp:1176-1184 | after a load that succeeds dropping the pages is harmless or ruled out, if and only if the file was the remote object, or was modified and the range has no such byte |
| Sessions.ReadZeroFills | src/fdcache.cpp:1583-1613 | the same for a read, with the range it loads ahead, unless it evicted |
| Sessions.StepClean | src/fdcache.cpp:1439-1442 | from a state in which a flush that uploads nothing is right, a request that succeeds leaves it so if and only if it does not zero-fill a modified file, whatever file and object hold; without such a request it stays so even when the request fails |
| Sessions.RunClean | src/fdcache.cpp:1123-1748 | the same for every run, by a condition on flags before each request |
| Sessions.LoadForEvery | src/fdcache.cpp:1176-1184 | for every content of the file and the remote object, a modified file stays harmless over a load if and only if there is no such byte or nothing was loaded |
| Sessions.ShortNeverSpoils | src/fdcache.cpp:1142-1147 | a file never longer than the remote object is never spoilt |
| Sessions.HarmDone | src/fdcache.cpp:1583-1597 | in a spoilt state a read of any unloaded byte without enough disk space changes the file |
| Sessions.TraceIsFlatRun | src/fdcache.cpp:1123-1748 | while evictions are harmless the states are those the requests make of the flat file |
| LostWrites.WriteIsLost | src/fdcache.cpp:1123-1748 | however far reads load ahead: after a write, the load and the truncate with which a file is grown, and a zero-filling read, the file differs from the object but would not be uploaded, and a low-disk read then loses the written byte |
| LostWrites.LosingTrace | src/fdcache.cpp:1123-1748 | there is such a run |
| LostWrites.LoseWrite | src/s3fs.cpp:2203-2218 | the same run on an entity that another holder has open, with any settings the program accepts; it loses the byte whenever nothing fails |
| Sessions.SessionIsPosix | src/fdcache.cpp:1123-1748 | in a session that never grows below the remote object, with harmless evictions, every read answers as a POSIX file would |
| Sessions.SafeIsUndisturbed | src/fdcache.cpp:1583-1597 | with enough space for every read nothing is dropped |
| Sessions.NeverResizedIsPosix | src/fdcache.cpp:1722-1731 | a run in which no truncate changes the length never grows a file while it is shorter than the remote object |
| Sessions.OpenAndServe | src/fdcache.cpp:752-1748 | opening, sharing and serving composed: from the remote object as the initial file every read answers as a POSIX file would, when there is enough space for every read or no request spoils the file, and the file never grows below the remote object, which can only fail when somebody else holds it too; as long as no system call and no server fails, every request succeeds |
| MultipartUploads.MultiCurl.AddPart | src/curl.cpp:1319-1346 | a new empty slot and the one part registered to fill it, anywhere in the map, with its slice and the number of the slot plus one |
| MultipartUploads.MultiCurl.Send | src/curl.cpp:3710-3718 | the first parts of the queue, as many as it has but at most max_multireq, become the sent ones |
| MultipartUploads.MultiCurl.MultiPerform | src/curl.cpp:3595-3633 | success means every sent part was accepted with a code below 400; the weight of the sent parts does not grow |
| MultipartUploads.MultiCurl.PerformOne | src/curl.cpp:3739-3741 | one part performed: it counts as sent, and an accepted one is logged with its number and what was sent |
| MultipartUploads.MultiCurl.SuccessCallback | src/curl.cpp:1206-1232 | the slot of the part's own slice gets the ETag that was answered, and the digest computed before only when none was |
| EtagHeaders.EtagRead | src/curl.cpp:1217-1228 | a quoted ETag behind the first keyword of the header text is read as it is if and only if it has 32 or 40 characters |
| EtagHeaders.NoEtag | src/curl.cpp:1217-1228 | without the keyword there is none |
| MultipartUploads.MultiCurl.RetryCallback | src/curl.cpp:1234-1274 | a retry is for the same slot and slice and weighs less; none after the last retry |
| MultipartUploads.MultiCurl.MultiRead | src/curl.cpp:3635-3696 | every sent part is given up if its code is unknown or 404, stored in its slot if below 400, else queued again with one more retry; with all codes below 400 nothing is queued again; a code is unknown only when something went wrong outside; nothing else is queued again |
| MultipartUploads.MultiCurl.Requeue | src/curl.cpp:3676-3693 | a retry takes the place of the part in the queue and lowers the weight, or fails and changes nothing |
| MultipartUploads.MultiCurl.Round | src/curl.cpp:3709-3733 | one batch sent and read: its parts are sent in order, all of them on success |
| MultipartUploads.MultiCurl.Request | src/curl.cpp:3698-3736 | ends within the weight of the queue, whatever the server does, and in fact within as many rounds as full batches; the parts sent are a prefix of the queue, each once, and all of it on success; a failure leaves an empty slot; when nothing goes wrong outside it succeeds and every slot of the queue has its ETag |
| ParallelUpload.FillBatch | src/curl.cpp:1308-1347 | each batch continues the tiling of the file where the last one ended |
| ParallelUpload.CompleteMultipartPostRequest | src/curl.cpp:2899-2977 | posts parts numbered 1..n with their ETags, and refuses as soon as one slot is empty |
| ParallelUpload.ParallelMultipartUploadRequest | src/curl.cpp:1276-1364 | a posted completion covers the file without gap or overlap, and each ETag comes from an accepted upload of its own slice under its own number, whose bytes were read from that slice, in every run; no part is ever sent twice, and all are before a completion is posted; every posted ETag is the one the server answered, or the digest if it answered none; when nothing goes wrong outside the upload succeeds |
| ParallelUpload.PostedUploads | src/curl.cpp:2899-2977 | every posted completion has accepted uploads with its numbers and ETags, each of its own slice |
| ParallelUpload.CompleteIsAnswered | src/curl.cpp:1206-1232 | for every posted part there is an accepted upload of its slice under its number whose answered ETag is the posted one |
| ParallelUpload.PostedIsFile | src/curl.cpp:1276-1364 | what any such uploads sent, put together in the order of the posted numbers, is the file if and only if all their bodies are whole |
| ParallelUpload.AssembledIsFile | src/curl.cpp:1276-1364 | whole bodies of uploads that tile the file, put together in order, are the file |
| PartUploads.PartRequest.UploadReadCallback | src/curl.cpp:775-805 | hands over at most the wanted bytes, from where the last block ended, never beyond the slice or the file; as much as is there, unless a pread failed or fell short |
| PartUploads.PartRequest.RemakeHandle | src/curl.cpp:1755-1762 | the next attempt reads again from the start of the slice |
| PartUploads.PartRequest.RequestPerform | src/curl.cpp:1904-2100 | the same attempts as a download: repeated exactly after transient answers, refused at once otherwise; success means a code below 400, and what the last attempt sent are the first bytes of the slice, whatever failed attempts had read |
| PartUploads.WholeBody | src/curl.cpp:3160-3162 | a body as long as its Content-Length is the slice |
| ParallelUpload.TilesCover | src/curl.cpp:1308-1347 | every byte of the file lies in exactly one part |
| ParallelUpload.PartCount | src/fdcache.cpp:1481-1498 | RowFlush refuses a file if and only if it has more than 10000 parts, and uploads it in parallel if and only if it has 2 to 10000 and, when it has two, both are full |
| PartUrls.PartNumberReadBack | src/curl.cpp:1234-1250 | a retry reads its own part number from its address, or is refused exactly if the address before the query holds the keyword |
| PartUrls.UploadIdReadBack | src/string_util.cpp:266-287 | the same for the upload id |
| Fields.FoundThere | src/string_util.cpp:266-287 | the keyword is looked for at its first occurrence: it stands there and nowhere before |
| HeadRequests.NextIsLighter | src/s3fs.cpp:2541-2574 | each retry lowers the lexicographic weight of remaining retries and remaining SSE keys |
| HeadRequests.MoreRetriesIsLighter | src/curl.cpp:1904-2100 | failed attempts inside a request only lower the weight |
| HeadRequests.KeysInTurn | src/s3fs.cpp:2541-2574 | all SSE keys are tried in turn with the same count of retries |
| HeadRequests.RetryAfterKeys | src/s3fs.cpp:2541-2574 | after the last key a retry is counted and the keys start again, unless the retries are used up |
| HeadRequests.MultiRead | src/curl.cpp:3635-3696 | exactly the requests with a code of 400 or more, 404 excepted, are made again, each as the head callback says |
| HeadRequests.Request | src/curl.cpp:3698-3736 | the rounds of head requests end within the weight of the queue, whatever the server answers; on success every path got an answer that is final |
| NoCachePosts.PostPage | src/fdcache.cpp:1244-1322 | the chunks posted for a page are a prefix of its chunk list, all of it on success, with the bytes of the flat file |
| NoCachePosts.PostChunk | src/fdcache.cpp:1266-1323 | a chunk is posted from the local file, or from a temporary file holding its remote part and zeros: in both cases that slice of the flat file |
| NoCachePosts.NoCacheLoadAndPost | src/fdcache.cpp:1202-1361 | what is posted is a prefix of the plan, all of it on success, each chunk with the bytes of its slice of the flat file; then exactly the bytes up to the size count as loaded, the list is canonical, and the local file is empty unless cutting it failed; the emptied entity is consistent if and only if the file had no bytes; every posted chunk is the next one of its page where it starts; it fails only when a system call or a server did; the modify flag survives if and only if no posted page is filled with zero |
| NoCachePosts.EmptiedIsNotHeld | src/fdcache.cpp:1328-1355 | the flags that posting up to any size leaves fit an emptied local file if and only if the file had no bytes |
| PostPlans.ChunksCover | src/fdcache.cpp:1244-1264 | the chunks of a page tile it in order |
| PostPlans.ChunkSizes | src/fdcache.cpp:1250-1264 | every chunk has the minimum part size unless it is the only one of a smaller page; none is over the maximum |
| PostPlans.ChunksAreNext | src/fdcache.cpp:1248-1264 | every chunk has exactly the multipart size as long as the minimum part size remains behind it; else it is all that is left, or half of it above 5 GB |
| PostPlans.ChunksAre | src/fdcache.cpp:1248-1264 | the chunks of a page are its full chunks and then one chunk or two halves, so their number is determined by its size |
| PostPlans.PlanIsNext | src/fdcache.cpp:1237-1264 | the same for every chunk of a plan and the page it lies in |
| PostPlans.PlanCovers | src/fdcache.cpp:1237-1264 | posting a whole file tiles it from 0 to its end |
| PostPlans.PlanUpTo | src/fdcache.cpp:1237-1247 | posting up to a size tiles the file to the end of the page that holds the last byte below it |
| PostPlans.PlanExact | src/fdcache.cpp:1237-1247 | exactly that many bytes are posted if and only if a page ends there |
| PostPlans.PlanMinimum | src/fdcache.cpp:1250-1264 | all chunks reach the minimum part size if and only if all pages do |
| PostPlans.PlanAccepted | src/fdcache.cpp:1250-1264 | all parts but the last reach it if and only if all pages but the last do |
| PercentCoding.UrlEncode | src/string_util.cpp:126-202 | percent-encoding, with or without the slash |
| PercentCoding.UrlDecode | src/string_util.cpp:204-225 | decoding of any text, with wrong digits as zero and a cut-off escape dropping the rest |
| PercentCoding.DecodeEncode | src/string_util.cpp:126-225 | decoding inverts encoding for every byte string |
| PercentCoding.PlainIs | src/string_util.cpp:126-202 | exactly the unreserved characters of RFC 3986 stay, and in paths the slash |
| PercentCoding.HexDigitIs | src/string_util.cpp:126-202 | hexadecimal digits are in upper case |
| PercentCoding.EncodedAt | src/string_util.cpp:126-202 | each byte is encoded where it stands, as itself or as a percent sign and two digits |
| PercentCoding.HexValueIs | src/string_util.cpp:204-225 | digits in any case have their value, any other character counts as zero |
| Base64.S3fsBase64 | src/string_util.cpp:333-362 | the encoding never leaves its buffer; an empty input gives none |
| Base64.S3fsDecode64 | src/string_util.cpp:385-418 | decoding of any text into a buffer that is always large enough |
| Base64.EncodeLength | src/string_util.cpp:333-362 | four characters for every three bytes begun, so the buffer is large enough |
| Base64.DecodeEncode | src/string_util.cpp:333-418 | decoding inverts encoding for every byte string |
| Base64.LetterTable | src/string_util.cpp:333-383 | the letters are the table of RFC 4648 |
| Base64.DecodedLetter | src/string_util.cpp:364-383 | a character decodes to the value it is the letter of, or to none |
| Base64.EncodedAt | src/string_util.cpp:333-362 | each character stands for its six bits of the input, or is padding |
| Base64.EncodeLetters | src/string_util.cpp:333-362 | encoded text has only the letters of the alphabet and padding |
| Xattrs.BuildXattrs | src/s3fs.cpp:3177-3206 | the header value lists every attribute once, quoted, in base64, percent-encoded; it parses back to the map if and only if all names are clean |
| Xattrs.ParseXattrs | src/s3fs.cpp:3117-3175 | the attributes of any header value; malformed pairs are skipped, the last of equal names wins |
| Xattrs.ParsedIsClean | src/s3fs.cpp:3117-3175 | whatever text is parsed, no resulting name has a comma, colon or double quote |
| Xattrs.BuiltIsParsed | src/s3fs.cpp:3117-3206 | parsing what was built gives the map back if and only if all names are clean |
| Xattrs.TakenOut | src/string_util.cpp:227-245 | a field counts as it is without quotes and from between two; with one or more than two it is refused |
| Xattrs.PairIs | src/s3fs.cpp:3117-3139 | a pair is split at its first colon; without one, or with a refused field, it is none |
| Xattrs.PairsAre | src/s3fs.cpp:3163-3173 | pairs stand between commas, and those that are none are skipped |
| Xattrs.BracesAre | src/s3fs.cpp:3148-3161 | what counts stands between the first opening and the last closing brace |
| Xattrs.SetXattrsToHeader | src/s3fs.cpp:3208-3257 | the flags decide by the presence of the header; on success the parsed header is the old map updated at the name if and only if the name is clean, and nothing else changes |
| MvNodes.MvList.AddMvnode | src/s3fs_util.cpp:356-410 | from any list built by it, the doubly linked list stays well linked and each class strictly ascending; the new path is put in order, or the node that has it is returned |
| MvNodes.InsertedKeepsSorted | src/s3fs_util.cpp:356-410 | each class stays strictly ascending by old path |
| MvNodes.InsertedAddsOne | src/s3fs_util.cpp:356-410 | a path is added exactly if its class does not have it, and no other node is added or lost |
| MvNodes.RenamePasses | src/s3fs.cpp:1478-1519 | a run performs the effects of the nodes until the first one that fails, all of them if none does: directories are cloned and then removed, or only forgotten if they have no object, files are moved; in every run directories are cloned top down, before any file is moved, and removed bottom up, after all files are |
| MvNodes.PlanEffects | src/s3fs.cpp:1478-1519 | each effect belongs to a node, and each node has its effects |
| MvNodes.PassOrder | src/s3fs.cpp:1478-1519 | clones go up and removals go down in path order |
| MvNodes.ParentsFirst | src/s3fs.cpp:1478-1519 | a directory is cloned before, and removed after, every directory whose path extends its own |
| MvNodes.PlanInOrder | src/s3fs.cpp:1478-1519 | the plan of a sorted list is in that order, with every directory above, below and every file accounted for |
| Hierarchy.MarkName | src/s3fs_util.cpp:279-297 | walking up the slashes of a name marks exactly its ancestors |
| Hierarchy.StripIs | src/s3fs_util.cpp:280-283 | one slash at the end of a name is dropped, and nothing else |
| Hierarchy.MakeHierarchizedList | src/s3fs_util.cpp:273-311 | keeps the list and adds behind it exactly the missing ancestors, each once, with or without a slash |
| Hierarchy.AncestorClosed | src/s3fs_util.cpp:273-311 | afterwards every ancestor of an entry is an entry |
| Renames.FillList | src/s3fs.cpp:1408-1476 | the rename list of a directory: each node comes from the directory itself or from an entry below it, and everything that is found is listed |
| Renames.EntryAdded | src/s3fs.cpp:1438-1476 | one more entry found keeps both, also when its path is listed already |
| Renames.AncestorEntry | src/s3fs.cpp:1435-1436 | every ancestor of an entry has an entry |
| Renames.RunIsOrderly | src/s3fs.cpp:1478-1519 | in every run over such a list, also one that is cut short, a file moves to its own place after all directories above it that are found are cloned, and nothing is removed before all files that are found are moved |
| Renames.RunIsDue | src/s3fs.cpp:1388-1519 | in every run each effect is due to a place that is found: clones and moves go to their own place, objects are removed only for directories that have one, and others forgotten |
| Renames.RunIsDone | src/s3fs.cpp:1388-1519 | a run in which nothing fails moves every file that is found, and clones and removes or forgets every directory with a source of its own |
| Renames.RenameDirectory | src/s3fs.cpp:1388-1523 | listing, filling and the three passes composed: every run is in that order and does only what is due, up to the first effect that fails; one in which none does does all of it |
| Renames.ParentOrder | src/s3fs.cpp:1452-1466 | a directory is cloned before those below it if and only if its object does not have the folder suffix |
| ObjectLists.S3ObjList.Insert | src/s3fs_util.cpp:74-140 | the entry is filed under its normal form, which points back; no name ends up normalized both with and without its slash; which directory names are normalized follows from the inserted names alone |
| ObjectLists.FolderIsNormal | src/s3fs_util.cpp:84-100 | a name with the folder suffix is filed as a directory under what stands before it |
| ObjectLists.OtherIsNormal | src/s3fs_util.cpp:84-100 | any other name is filed under itself, with a slash if it is said to be a directory |
| ObjectLists.S3ObjList.InsertNormalized | src/s3fs_util.cpp:142-166 | a name points to its normal form unless it is its own |
| ObjectLists.S3ObjList.GetNameList | src/s3fs_util.cpp:253-269 | as many names as keys are selected, and exactly those keys, cut as asked; for every list built by insertions, a repeated name if and only if the inserted names left both "/" and "//" standing |
| ObjectLists.InsertKeepsNoTwins | src/s3fs_util.cpp:74-166 | the twin invariant holds after every insertion |
| ObjectLists.InsertFindable | src/s3fs_util.cpp:74-166 | an inserted name is found under its normal form, and no other name but the slashless twin is affected |
| ObjectLists.NameListDuplicates | src/s3fs_util.cpp:253-269 | the normalized list without slashes repeats a name if and only if "/" and "//" are both normalized entries |
| ObjectLists.DoubleSlash | src/s3fs_util.cpp:74-140 | only names that start with two slashes normalize to "//" |
| ObjectLists.InsertStands | src/s3fs_util.cpp:74-166 | a directory name is normalized afterwards if and only if it is the normal form of the new name, or it was and the new one is not its own form with one more slash |
| ObjectLists.NoDoubleSlash | src/s3fs_util.cpp:74-140 | names that do not start with two slashes never leave "//" standing |
| ObjectLists.ListWithoutDuplicates | src/s3fs_util.cpp:74-269 | every list built from such names has no duplicates |
| ObjectLists.ListWithDuplicate | src/s3fs_util.cpp:74-269 | inserting "//" and then "/" makes one |
| Headers.SortInsert | src/curl.cpp:3954-4020 | relinking leaves a well-formed list with the header in place or replaced |
| Headers.InsertedKeepsAscending | src/curl.cpp:3954-4020 | keys stay strictly ascending, ignoring case |
| Headers.InsertedBinds | src/curl.cpp:3954-4020 | the key is bound to its trimmed value, and no other binding changes |
| Headers.BuiltIsLatest | src/curl.cpp:3954-4020 | after any sequence of insertions the list is the map of last values in ascending order |
| Headers.InsertedItems | src/curl.cpp:3954-4020 | after an insertion the list has the new item and exactly the others whose names differ in more than case |
| Headers.BuiltIgnoresCase | src/curl.cpp:3954-4020 | of headers that differ in case only exactly the last one is in the list, and no two items have such names |
| Headers.SignedNames | src/curl.cpp:4206-4218 | which names are signed |
| Headers.GetCanonicalHeaders | src/curl.cpp:4072-4107 | the text of the signed headers that have values, in list order |
| Headers.GetCanonicalHeaderKeys | src/curl.cpp:4109-4141 | the text of their names, in list order |
| Headers.NamesAgree | src/curl.cpp:4072-4141 | both texts name the same headers in the same order if and only if no item is a signed name without a colon |
| Headers.CanonicalIsLatest | src/curl.cpp:3954-4141 | after any insertions both texts are made of exactly the signed headers with their last values, strictly ascending |
| Headers.CanonicalParses | src/curl.cpp:4072-4141 | splitting and decoding the two texts gives the signed headers back |
| Texts.ToLower | src/string_util.cpp:80-87 | moves exactly the upper-case letters, by 0x20, in place |
| Texts.TrimIsTrimmed | src/string_util.cpp:98-118 | a trimmed text has no blank at either end |
| Texts.TrimTakes | src/string_util.cpp:98-118 | trimming takes blanks, tabs and line ends from both ends only |
| Texts.SameLower | src/string_util.cpp:80-87 | two texts have the same lower-case form if and only if they differ in the case of letters only |
| Ordering.LessIs | src/s3fs_util.cpp:366-377 | the first difference of two texts decides, and a prefix comes first |
| StatCaches.StatCache.GetStat | src/cache.cpp:128-199 | a hit gives what was last added under the found key with all later size changes, used no longer ago than the expiry, and added no longer ago than that for each renewal of its date and once more; expired, foreign or unusable entries go with their twin; it hits exactly when there is an entry of an object, not expired, with the ETag asked for, and then has that ETag |
| StatCaches.StatCache.IsNoObjectCache | src/cache.cpp:201-241 | says "absent" exactly for an unexpired entry that says so |
| StatCaches.StatCache.AddStat | src/cache.cpp:243-300 | the entry replaces its own key and twin or, with the cache over its size, one of least date; at most one entry is ever over the size |
| StatCaches.StatCache.AddNoObjectCache | src/cache.cpp:321-362 | the same for an entry that says there is no object |
| StatCaches.KeepHeaders | src/cache.cpp:278-293 | keeps exactly the listed headers and those of the service, the last value for each kept name |
| StatCaches.KeptNames | src/cache.cpp:278-293 | which headers are kept, and under which name |
| StatCaches.StatCache.IncSize | src/cache.cpp:302-319 | adds to the size of the cached stat and changes nothing else |
| StatCaches.StatCache.TruncateCache | src/cache.cpp:364-397 | removes one entry of least date, unless the cache is empty |
| StatCaches.StatCache.DelStat | src/cache.cpp:399-436 | removes exactly the key and its slash twin |
| StatCaches.LastIsAdded | src/cache.cpp:243-319 | what is under a key is what was last added there plus all later size changes, not deleted since |
| StatCaches.DeletedStays | src/cache.cpp:399-436 | a deleted key, or deleted twin, stays absent until it is added |
| StatCaches.NoHitAfterDelete | src/cache.cpp:128-199 | after a delete no lookup of the key finds anything until the key or its slash twin is added |
| StatCaches.DateIsBounded | src/cache.cpp:128-241 | the date of an entry is later than its addition by at most the expiry for each renewal |
| StatCaches.ServeOld | src/cache.cpp:128-199 | the bound is reached: looked up often enough, an entry is served however long ago it was added |
| FdManagers.OpenFile.Open | src/fdcache.cpp:752-888 | the first holder opens the local files, later ones are counted |
| FdManagers.OpenFile.Dup | src/fdcache.cpp:737-746 | counts one more holder of an open entity |
| FdManagers.OpenFile.Close | src/fdcache.cpp:712-735 | counts one holder less, and the last one closes |
| FdManagers.FdManager.Open | src/fdcache.cpp:2103-2166 | a path that is held open gets its one open entity; each entity has one key and counts its opens minus its closes; failed opens are handed out only as the code does |
| FdManagers.FdManager.ExistOpen | src/fdcache.cpp:2168-2194 | finds an entity exactly if the path is held open, and counts the new holder |
| FdManagers.FdManager.Close | src/fdcache.cpp:2234-2251 | the entity leaves the table exactly with its last holder |
| FdManagers.FdManager.FiledUnderPath | src/fdcache.cpp:2103-2166 | in a cache directory a path held open is filed under itself, once |
| BodyDatas.GrowthFits | src/curl.cpp:129-164 | the grown buffer has room in all four bands; the unparenthesised rounding asks for (wanted - bufsize/8 + 1) * 8 |
| BodyDatas.GrowthIs | src/curl.cpp:129-152 | the growth is what the expansion asks for or the least one of the band, whichever is more |
| BodyDatas.BodyData.Resize | src/curl.cpp:134-164 | room for the bytes and a zero, contents kept; without memory the buffer is gone |
| BodyDatas.BodyData.Append | src/curl.cpp:176-192 | the buffer holds the concatenation of all appended bytes and a terminating zero inside its capacity |
| BodyDatas.BodyData.Clear | src/curl.cpp:166-174 | an empty buffer |
| BodyDatas.BodyData.Str | src/curl.cpp:194-201 | what a C string reader sees is the contents if and only if they have no zero |

## Left out

- FdEntities.FdEntity.Write: the mode for too little disk space, in which `upload_id` is set and data is posted as it is written, is not modelled; the contract is for an entity that is not uploading and has enough space.
- FdEntities.FillFile: a `pwrite` that takes no byte without failing, which the source would repeat forever, is not modelled.
- FdEntities.FdEntity.constructor: opens without a cache file (`OpenCached` is the other branch); local opens that fail are in `FdManagers`.
- FdEntities.FdEntity.Dup: the entity of this module is always open, so it always counts; `FdManagers.OpenFile.Dup` has the test for a descriptor.
- Sessions.Serve: an fsync that fails after its truncate succeeded ends such a run, since the entity may then be inconsistent.
- Downloads.GetObjectRequest: an honest server is one that never reports success without delivering exactly the requested bytes, as far as the object reaches; other servers are covered by `RequestPerform`.
- Downloads.ParallelGetObjectRequest: the chunks of a batch are performed one after the other, which their disjoint ranges allow; `ParallelGetObjectRetryCallback` is not modelled, since a round with all codes below 400 never calls it.
- EtagHeaders.EtagRead: a header text that ends within 39 characters of the keyword, for which the source throws, counts as one without an ETag.
- HeadRequests.Request: the response codes are arbitrary here, also for requests that returned 0.
- PartUploads.PartRequest.RequestPerform: that a server accepts a body only when it is as long as its Content-Length is not assumed; `WholeBody` and `AssembledIsFile` say what follows.
- MultipartUploads.MultiCurl.RetryCallback: refusing for any reason of its own, such as an address that cannot be read back, is an arbitrary failure here; `PartUrls` says when that happens.
- NoCachePosts.NoCacheLoadAndPost: starts at byte 0, as both callers do.
- NoCachePosts.PostPage: reading a chunk from its file while it is posted is one step here; `PartUploads` has the read callback.
- Renames.RenameDirectory: the listing and what looking at a path finds, including `chk_dir_object_type`, are given; a listing that fails ends the call before anything is renamed.
- Sessions.RunClean: a flush that uploads ends such a run, since the remote object is then another one.
- PartUrls.PartNumberReadBack: `atoi` is taken as the decimal value of the digits; the part of the address before the query has no '=', as percent-encoding leaves it.
- PageListText.SerializeIn: works on a text; a stale tail that an earlier, longer stat file leaves behind the new text is not modelled, nor are I/O errors of that file.
- Xattrs.BuildXattrs: the map order is arbitrary here; memory that cannot be allocated is not modelled.
- ObjectLists.S3ObjList.Insert: names that begin with the folder suffix are excluded, since the source then reads before the start of an empty string.
- Headers.SortInsert: keys with a colon or outer blanks are covered by the insertion itself but not by the order and binding results; a missing value is the empty one.
- StatCaches.StatCache.GetStat: the clock is read once for each call; the calls do not overlap, so the window in which `AddStat` has released its lock is not modelled.
- StatCaches.StatCache.AddStat: the stat that `convert_header_to_stat` computes from the headers is a given result; it fails only without a path.
- FdManagers.FdManager.Open: paths begin with a slash and temporary keys are unused, as the code assumes; what entities hold besides their path, descriptor and count is in `FdEntities`.
- BodyDatas.BodyData.Append: needs a buffer that was not lost; after a failed allocation the source would write through a null pointer unless it was cleared.
- Threads: fields are changed by one call at a time, as the locks of the source ensure; interleavings of unlocked sections are not modelled.
- Machine integers: offsets, sizes, counts and times are unbounded; only bytes are of fixed width.
- Zero bytes in paths, keys and header values, which C strings cut off, are not modelled.
- The shared library code below the calls (libcurl, libxml2, FUSE, file-system calls, crypto), logging, option and password parsing, and `FdManager::Rename`.
- `StatCache::SetCacheSize` and the other setters: the settings are constants of a cache.
