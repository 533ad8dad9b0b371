# A verified model of kangle's core

kangle is a web server and reverse proxy. This Dafny project models the parts of it whose
correctness is not visible in one function, and proves what they promise for all inputs,
all runs or all interleavings. `dafny verify dfyconfig.toml` checks the whole project.

| module | models |
|---|---|
| `SearchTree`, `ObjectIndex` | the object-cache index: a search tree of chains ordered by URL and vary value, with size counters |
| `Revalidation` | merging client and cache validators, and what a 304 then means |
| `BigObject` | a large object cached piece by piece, with its fetchers and waiting readers |
| `FastcgiRecords`, `FastcgiReader`, `FastcgiRuns`, `FastcgiStream`, `FastcgiParams` | FastCGI records, the body reader with map-path requests in between, name-value pairs |
| `ChildService` | the header-closing state machine of the child API service, and what the parent hears of it |
| `Ajp` | the AJP/1.3 packet builder, the resumable packet parser, the getters |
| `PathTrip` | the in-place path normaliser |
| `Hostname` | the reversed host name key |
| `Chain` | the condition and mark lists of an access chain |
| `Sources` | the two loops that open content sources in turn |
| `IpList` | the timed black and white list |
| `SpeedLimit` | the speed limiters |
| `RWLock` | the reader-writer lock on one counter |
| `Workers` | worker supervision in extworker |
| `Wire` | an option type, bytes, numbers in network order, and texts up to the case of letters |

Code that updates objects, buffers or arrays in place is modelled by classes and methods,
each proved against a specification function or an invariant that its own lemmas explain.
Protocols between threads are state machines over their atomic steps, and the theorems
speak about every finite run.

## What turned out not to hold

* `MemObjectSizeChange` keeps the size counters right exactly when the object's body is
  counted in memory and not on disk, or its size stays the same
  (`ObjectIndex.ObjectHash.SizeChange`, `ObjectIndex.SizeChangeLosesCount`).
* Revalidation is invisible to the client exactly under `Revalidation.Invisible`, which is
  spelled out for every kind of cached validator and every origin
  (`Revalidation.Transparency`).
  * For entity tags it asks that byte comparison decides the same as the weak comparison of
    section 13.1.2 of RFC 9110 (`Revalidation.WeakTagsAreNot`), that no empty list member
    ends the search early (`Revalidation.EmptyMemberEndsSearch`), that an If-Modified-Since
    is not decided by the date at the origin and by the tag at the cache
    (`Revalidation.TagsAreNotDates`), and that under one tag the dates of both sides decide
    it alike (`Revalidation.DatesUnderOneTag`). With strong tags and no empty list member
    the exceptions of If-Modified-Since are left (`Revalidation.StrongTagsAreTransparent`).
  * For dates the exceptions are "*" in the client's list, an origin whose date went back,
    and an origin that has begun to send a tag (`Revalidation.DatesAreNotTransparent`).
* A stale body is served exactly when the client needs a body and the origin's 304 either
  carries no validator and was not about the cached object (for "*", and for an origin whose
  date is the epoch or earlier, which is dropped where it is read), or carries the cached
  validator for another body (`Revalidation.NeverStale`, `Revalidation.BlindServesStale`,
  `Revalidation.TwinServesStale`).
* `kgl_acl_host` and the host itself give the same key except for a host of 251 labels of at
  most 63 bytes with two or more trailing dots and a buffer that would hold its key
  (`Hostname.AclHostKeepsKey`, `Hostname.AclHostLosesKey`).
* A deferred result counts as a hit exactly when the last mark called both finishes and
  defers (`Chain.HitIsUndeferred`, `Chain.FinishedDeferralIsHit`).
* The replay mark of a request body is right exactly if no byte was read after the body was
  marked ready without a replay being announced first (`Sources.MarkIsRight`,
  `Sources.LateReadIsMarked`). A module that keeps to `include/ksapi.h:199-204` makes no
  such read (`Sources.DisciplineSuffices`).
* In every run of reads each one that asks for bytes gets some exactly while there are any,
  if and only if no END_REQUEST or ABORT_REQUEST comes in front of body bytes; and 0 for good
  from then on, if and only if besides the end record of the body comes, no ABORT_REQUEST is
  before it and no two END_REQUESTs with a content stand one behind the other
  (`FastcgiReader.ReadsToTheEnd`, `FastcgiReader.EndRequestIsNotTheEnd`). What a server
  sends is such a stream (`FastcgiStream.SentBodyIsOwed`).
* A map-path call leaves the body unchanged exactly if the STDIN contents before the reply
  are all of the body that comes before it. That is so if every non-empty data record before
  the reply is STDIN and comes before the end of the body, and never if the bytes in STDOUT
  records before the end and those in STDIN records behind it differ in number
  (`FastcgiStream.Stream.MapUrlPath`, `FastcgiReader.WaitBalance`,
  `FastcgiStream.MapUrlPathLosesBody`).
* What an extension writes is what the parent finds behind the header, if and only if no
  header text that is sent reaches an empty line before its last character and the status
  has none in it (`ChildService.BodyIsBehindHeader`, `ChildService.HeaderRestIsBody`,
  `ChildService.StatusBreakIsBody`). The parent gets all that was sent, if and only if no
  text that is sent is empty, except of writes that only empty ones follow
  (`ChildService.Service.Respond`, `ChildService.EmptyTextsCut`).
* The speed bound needs every reservation to stay below the 20 second cap
  (`SpeedLimit.CutWhen`, `SpeedLimit.CapBreaksBound`).

## Assumptions

* `KUrl::cmp` is modelled as `strcmp` on one URL string and `cmpn` as comparison of the
  first characters; `KUrl`, `krbtree` and `KHttpFieldValue` are not part of this model.
* Red-black rebalancing may change the tree in any way that keeps the order of its nodes.
* `BuildVary` is a function of the request and the vary key.
* Field values split at commas, with white space trimmed from each member.
* The origin obeys section 13.2.2 of RFC 9110 and sends its validator with every 304.
* Socket writes succeed. Whether an environment accepts a pair depends on the pair.
* `kgl_memcpy` in the path normaliser copies forward, also where its ranges overlap.
* Clocks do not go back, pids are fresh, and all children of extworker are workers.
* Counters of 64 bits do not overflow. The 32-bit counter of the lock is shown to fit.

## Model

| member | source | states |
|---|---|---|
| `Wire.LowerIsText` | include/KHttpObjectHash.h:11-24 | two texts are the same in lower case exactly if they agree in every place, or have the capital and the small form of one letter of A to Z there |
| `SearchTree.KeyCmpOrder` | include/KHttpObjectHash.h:11-47 | the comparison of keys is antisymmetric and zero only for equal keys |
| `SearchTree.KeyCmpTrans` | include/KHttpObjectHash.h:11-47 | the comparison of keys is transitive, with absent vary values above all others |
| `SearchTree.FindNodeCorrect` | include/KHttpObjectHash.h:472-491 | in an ordered tree the descent finds a node exactly when the key is stored |
| `SearchTree.FirstMatchCoversUrl` | include/KHttpObjectHash.h:472-491 | every node of a URL lies in the subtree of the first node of that URL on the search path |
| `SearchTree.FirstMatchRank` | include/KHttpObjectHash.h:472-491 | the descent meets a node of the URL exactly when one is stored |
| `SearchTree.RestartIsSound` | include/KHttpObjectHash.h:168-181 | the first node of a URL does not depend on the vary value, and a search restarted there finds what a search from the root finds |
| `SearchTree.LinkInOrder` | include/KHttpObjectHash.h:399-440 | a leaf linked where the search ends stands between all smaller and all larger keys |
| `SearchTree.ReplaceInOrder` | include/KHttpObjectHash.h:418-428 | replacing the data of the found node changes that one entry |
| `SearchTree.UrlIsContiguous` | include/KHttpObjectHash.h:310-333 | the nodes of one URL are neighbours in tree order |
| `SearchTree.PurgeCmpMonotone` | include/KHttpObjectHash.h:48-51 | prefix comparison is monotone along the order of full keys |
| `SearchTree.CoveredRankCorrect` | include/KHttpObjectHash.h:441-468 | the descent of a purge finds a covered node exactly when there is one |
| `ObjectIndex.FoldIsKey` | include/KHttpObjectHash.h:11-24 | two vary keys count as one exactly if both are absent, or both present and the same text up to the case of letters |
| `ObjectIndex.HttpObject.constructor` | src/KHttpObject.cpp:56-69 | a new object is live, in memory, and has a vary key and value that are both present or both absent |
| `ObjectIndex.SumSplit` | include/KHttpObject.h:285-304 | a counter over a set of objects is any one object's share plus the counter over the others |
| `ObjectIndex.SizesCoverCounts` | include/KHttpObjectHash.h:249-271 | a size counter is at least its object count, so a zero size means no objects |
| `ObjectIndex.CoveredRange` | include/KHttpObjectHash.h:83-116 | what a purge covers is one stretch of nodes |
| `ObjectIndex.NodeOf` | include/KHttpObjectHash.h:472-491 | a search that stops has reached all stored objects of the key, one that runs off shows there are none |
| `ObjectIndex.AddToChain` | include/KHttpObjectHash.h:418-428 | an object put in front of its chain is the only change of the multimap |
| `ObjectIndex.AddNode` | include/KHttpObjectHash.h:434-440 | a new node makes the one-object chain of its key the only change of the multimap |
| `ObjectIndex.RemoveFromChain` | include/KHttpObjectHash.h:352-368 | an object taken out of its chain is the only change of the multimap |
| `ObjectIndex.RemoveNode` | include/KHttpObjectHash.h:370-373 | erasing the node of a last object is the only change of the multimap |
| `ObjectIndex.ObjectHash.constructor` | include/KHttpObjectHash.h:66-72 | an empty index satisfies every invariant |
| `ObjectIndex.ObjectHash.Find` | include/KHttpObjectHash.h:472-491 | the pointer loop returns the searched node and the first node of the URL |
| `ObjectIndex.ObjectHash.UpdateChain` | src/KVary.cpp:35-51 | every object of the chain dies and gets the new key, and keeps its value; erasing a key demands that there is one |
| `ObjectIndex.ObjectHash.UpdateNeighbours` | include/KHttpObjectHash.h:310-325 | the walk in one direction rewrites all objects of the URL on that side and no other |
| `ObjectIndex.ObjectHash.UpdateUrl` | include/KHttpObjectHash.h:326-333 | exactly the objects of the URL die and get the new key |
| `ObjectIndex.ObjectHash.Insert` | include/KHttpObjectHash.h:399-440 | the object joins the front of the chain of its key, and no other chain changes |
| `ObjectIndex.ObjectHash.SettleKey` | include/KHttpObjectHash.h:405-433 | after an insert with another vary key, up to the case of letters, all older objects of the URL are dead and carry the new key; other URLs are untouched |
| `ObjectIndex.ObjectHash.Put` | include/KHttpObjectHash.h:285-301 | the multimap gains the object and right counters are kept; the older objects of the URL whose vary key is another text, up to the case of letters, die and get the new one, and no other object changes; the object has one more reference |
| `ObjectIndex.ObjectHash.VaryIsOne` | include/KHttpObjectHash.h:405-433 | two stored objects of one URL have the same vary key up to the case of letters, and a live one the key that it was stored with |
| `ObjectIndex.ObjectHash.CountIn` | include/KHttpObject.h:285-304 | the counters stay the sums over the stored objects when one is added |
| `ObjectIndex.ObjectHash.CountOut` | include/KHttpObjectHash.h:246-271 | the counters stay the sums over the stored objects when one is removed |
| `ObjectIndex.ObjectHash.UpdateVary` | include/KHttpObjectHash.h:147-156 | a vary key that is another text up to the case of letters replaces the key of the whole URL and kills its objects; an equal one kills the first chain of the URL that the search meets, and nothing else |
| `ObjectIndex.ObjectHash.Unlink` | include/KHttpObjectHash.h:337-373 | the object leaves its chain, or nothing changes if it is not stored |
| `ObjectIndex.ObjectHash.Remove` | include/KHttpObjectHash.h:337-383 | exactly that object leaves the multimap and the counters, and both assertions on the counters hold |
| `ObjectIndex.ObjectHash.Scan` | include/KHttpObjectHash.h:187-213 | the best eligible object of the chain is picked, and older objects are expired softly or hard |
| `ObjectIndex.ObjectHash.Select` | include/KHttpObjectHash.h:160-186 | the chain holds exactly the objects of the URL with the request's vary value under the URL's current key |
| `ObjectIndex.ObjectHash.Get` | include/KHttpObjectHash.h:160-220 | what is returned is live, of the variant the request selects under a vary key that is, up to the case of letters, the one it was stored with, and has the largest accept_encoding among the eligible; nothing is returned only if none is eligible |
| `ObjectIndex.ObjectHash.PurgeChain` | include/KHttpObjectHash.h:387-398 | each live object of the chain is visited once, and dies if the handler kills |
| `ObjectIndex.ObjectHash.FirstCovered` | include/KHttpObjectHash.h:96-105 | the first covered node in tree order, or none if nothing is covered |
| `ObjectIndex.ObjectHash.PurgeFrom` | include/KHttpObjectHash.h:83-116 | the forward walk visits each live object of the covered stretch once |
| `ObjectIndex.ObjectHash.Purge` | include/KHttpObjectHash.h:76-119 | exactly the live objects that the URL covers are visited, each once, and die if the handler kills |
| `ObjectIndex.ObjectHash.SizeChange` | include/KHttpObjectHash.h:221-231 | the index stays valid if and only if the size is unchanged or the body is counted in memory and not on disk |
| `ObjectIndex.SizeChangeLosesCount` | include/KHttpObjectHash.h:221-231 | a stored object for which it does not |
| `ObjectIndex.ObjectHash.SwapIn` | src/KHttpObjectSwaping.cpp:208-233 | loading a body keeps every invariant |
| `ObjectIndex.ObjectHash.SaveToDisk` | src/KHttpObject.cpp:505-512 | saving a body keeps every invariant |
| `ObjectIndex.ObjectHash.SwapOut` | src/KObjectList.cpp:242-268 | dropping a body keeps every invariant |
| `Revalidation.FieldsFront` | src/HttpFiber.cpp:625-635 | a tag and a comma in front of a list add one member to it |
| `Revalidation.FieldsPadded` | src/KHttpObject.cpp:161-191 | white space around a member does not belong to it |
| `Revalidation.ByteMatchStep` | src/KHttpObject.cpp:161-191 | a list names a tag if its first member does, or if that is not empty and the rest does |
| `Revalidation.PreconditionEntity` | src/KHttpObject.cpp:161-191 | the scan is refused exactly when "*" or the tag, byte for byte, stands before any empty member |
| `Revalidation.RequestPrecondition` | include/HttpFiber.h:42-64 | whether the client needs the cached body: for a date, exactly if the cached object is dated later or not at all |
| `Revalidation.Fiber.MergePrecondition` | src/HttpFiber.cpp:608-645 | the upstream condition holds the cached validator and the client's own |
| `Revalidation.Fiber.HandleNotModified` | src/HttpFiber.cpp:667-685 | a 304 with a foreign validator goes to the client and kills the old object; otherwise the client's own condition decides |
| `Revalidation.Fiber.LoadFromSource` | src/HttpFiber.cpp:646-685 | the client gets what revalidation means, and an object is marked verified only when it is served |
| `Revalidation.MergedMatch` | src/HttpFiber.cpp:623-640 | the merged list matches at the origin if the cached tag or the client's list does |
| `Revalidation.EntityTagTransparency` | src/HttpFiber.cpp:608-685 | for entity-tagged objects the client sees what a direct request would show if and only if byte and weak comparison decide alike, and for an If-Modified-Since the dates of both sides are both after it or both not, and one tag names one body where a body is sent |
| `Revalidation.StrongTagsAreTransparent` | src/HttpFiber.cpp:608-685 | with strong tags and no empty list member the client sees what a direct request would show, if and only if, for an If-Modified-Since, the dates of both sides are both after it or both not under one tag, and the origin's is after it under another |
| `Revalidation.SameDateIsTransparent` | src/HttpFiber.cpp:667-685 | while tag, body and date are the same on both sides, a client that sends any date sees what a direct request would show |
| `Revalidation.RepeatedDate` | src/KHttpObject.cpp:137-154 | a client that repeats the date it was given, or sends a later one, gets a 304, and one with an earlier date gets the body |
| `Revalidation.WeakTagsAreNot` | src/KHttpObject.cpp:121-136 | two requests with weak tags for which it does not |
| `Revalidation.TagsAreNotDates` | src/HttpFiber.cpp:608-640 | an If-Modified-Since that the origin decides by the date and the cache by the tag |
| `Revalidation.DatesUnderOneTag` | src/KHttpObject.cpp:230-230 | two requests that the dates decide differently under one tag: the cache has dropped the epoch, or the file was touched |
| `Revalidation.EmptyMemberEndsSearch` | src/KHttpObject.cpp:161-191 | for every tag, a list with an empty member in front of it, for which the cache and the origin answer differently |
| `Revalidation.TimeTransparency` | src/HttpFiber.cpp:615-622 | for objects with a date, the exact condition on the dates, the client's condition and the origin's tag under which the client sees what a direct request would show |
| `Revalidation.DatesAreNotTransparent` | src/HttpFiber.cpp:615-622 | three requests for which it does not: "*", a date that went back, an origin that has begun to send a tag |
| `Revalidation.Transparency` | src/HttpFiber.cpp:608-685 | for every client, every cached object and every origin, the exact condition under which revalidation is invisible |
| `Revalidation.NeverStale` | src/HttpFiber.cpp:641-685 | for every origin, a body that is not the origin's is served if and only if the bodies differ and its 304 is blind or carries the cached validator, while the client needs a body |
| `Revalidation.BlindServesStale` | src/KHttpObject.cpp:230-230 | three requests that get a stale body, two of them against an origin whose date is the epoch |
| `Revalidation.TwinServesStale` | src/HttpFiber.cpp:667-685 | a request that gets a stale body because one date names two bodies |
| `BigObject.ReplaceIsSound` | src/KSharedBigObject.cpp:47-75 | a block in a gap, or in place of its neighbours, keeps blocks apart, in order and correct |
| `BigObject.GrownIsSound` | src/KSharedBigObject.cpp:421-472 | a block that grew over the next one is correct, and readers wait only at its end and only for a fetcher |
| `BigObject.NoneIsLost` | src/KSharedBigObject.cpp:431-472 | after a merge every queued reader is still queued or woken, once |
| `BigObject.MergeKeepsFetchers` | src/KSharedBigObject.cpp:431-452 | whoever fetches for one of two merged blocks fetches for the merged one, a fiber in charge of both is listed once, and the one in charge of the first stays so |
| `BigObject.SharedObject.constructor` | include/KSharedBigObject.h:54-62 | an object without blocks satisfies every invariant |
| `BigObject.SharedObject.Find` | src/KSharedBigObject.cpp:17-46 | the block that knows an offset, or the gap it lies in |
| `BigObject.SharedObject.Insert` | src/KSharedBigObject.cpp:47-75 | an empty block appears only where no block knows the offset, and no byte is claimed by it |
| `BigObject.SharedObject.OpenWrite` | src/KSharedBigObject.cpp:147-163 | the fiber is in charge of the block that knows the offset, no byte is claimed and no reader is lost |
| `BigObject.SharedObject.Partition` | src/KSharedBigObject.cpp:460-494 | each queued reader is kept or woken, only those that can go on are woken, and one of them gets bytes exactly if it asked for some that were written, and then all of those |
| `BigObject.SharedObject.Write` | src/KSharedBigObject.cpp:401-507 | the claimed bytes grow by exactly the written ones, up to the end of the next block if the write goes over it; known offsets stay known; no fetcher is lost; no reader is lost, and one that is woken gets bytes exactly if it asked for some that were written, and then all of those |
| `BigObject.SharedObject.Read` | src/KSharedBigObject.cpp:181-267 | bytes are returned exactly if the offset is covered and the file can be read, and are the origin's; a fetch is asked for a gap only, up to the next block or the end, and the reader is then in charge of it; otherwise it is queued once, behind a fetcher; a failure changes nothing |
| `BigObject.SharedObject.CloseWrite` | src/KSharedBigObject.cpp:268-313 | the fiber leaves its block once, the last fetcher wakes all readers of that block and an earlier one nobody, and the object is complete exactly if that block is the whole body |
| `BigObject.SharedObject.CompleteIsBody` | src/KSharedBigObject.cpp:306-313 | a complete object's file is the origin's body |
| `BigObject.SharedObject.CanSatisfy` | src/KSharedBigObject.cpp:508-547 | "all" if and only if every requested byte is covered, for a range that begins in the body; "part" yields the first gap, with everything before it covered, nothing in it, and a block or the end of the range behind it; without a range "all" exactly for a complete object |
| `FastcgiRecords.FrameIsNext` | include/KFastcgiUtils.h:477-486 | a record that was written is read back as that record |
| `FastcgiRecords.FramesAreRecords` | include/KFastcgiUtils.h:199-230 | the records of a stream are those that were sent, in order |
| `FastcgiRecords.HeaderOnTheWire` | include/KFastcgiUtils.h:477-486 | a header has the layout of section 3.3 of the FastCGI Specification: version 1, the type, request 1 and the content length in network order, no padding |
| `FastcgiRecords.ChunksAreOwed` | include/KFastcgiUtils.h:160-181 | a body write puts exactly its bytes in front of what is owed, and other records put nothing |
| `FastcgiStream.Stream.WriteData` | include/KFastcgiUtils.h:160-181 | data goes out in records of at most 32767 bytes, no data as one empty record |
| `FastcgiStream.Stream.ReadPackage` | include/KFastcgiUtils.h:199-230 | one whole record is read, or the stream is at its end |
| `FastcgiReader.ReadConserves` | include/KFastcgiUtils.h:311-343 | on every stream the bytes a read returns leave the body in order and nothing else does |
| `FastcgiReader.ReplyOfFrames` | extworker/KChildApiService.cpp:60-91 | behind any records that are no replies the content of the first reply is found, and without a reply none |
| `FastcgiReader.ReadyStays` | include/KFastcgiUtils.h:311-343 | on an ordered stream a read gets bytes exactly while there are any, and the stream stays ordered |
| `FastcgiReader.ReadsToTheEnd` | include/KFastcgiUtils.h:231-343 | in every run of reads that is so if and only if the stream is ordered, and later reads return 0 for good if and only if it is strictly so |
| `FastcgiReader.EndRequestIsNotTheEnd` | include/KFastcgiUtils.h:278-280 | a stream on which a read returns 0 and the next one a byte |
| `FastcgiStream.Stream.ReadData` | include/KFastcgiUtils.h:231-285 | on every stream the next data record is returned and leaves the body, other records are skipped, and END_REQUEST and ABORT_REQUEST leave the body as it is; what the stream promised it still promises |
| `FastcgiStream.Stream.Read` | include/KFastcgiUtils.h:311-343 | the count, the bytes and the state are those of the reader model; an ordered stream stays ordered; where the body is ended by its own record, 0 means that it has been met and -1 that the stream is used up; no reply is added or reordered |
| `FastcgiStream.Stream.Drain` | extworker/KChildApiService.cpp:31-36 | unless the end has arrived, an ordered stream is read until nothing of the body is left |
| `FastcgiStream.Stream.PushReadData` | include/KFastcgiUtils.h:287-310 | pushed bytes follow those pushed before |
| `FastcgiStream.Stream.MapUrlPath` | extworker/KChildApiService.cpp:60-91 | the content of the first reply record is returned and leaves the replies to come, and the call fails exactly if there is none; the body still to be read is unchanged if and only if the STDIN contents before the reply are all of the body before it; an ordered stream stays ordered |
| `FastcgiReader.WaitBalance` | extworker/KChildApiService.cpp:60-91 | the condition on records: nothing is lost or added exactly if every non-empty data record before the reply is STDIN and before the end, and the sizes balance |
| `FastcgiReader.BodySplits` | include/KFastcgiUtils.h:199-285 | the body is what comes before the reply and what comes behind it |
| `FastcgiReader.ProperIsEarly` | extworker/KChildApiService.cpp:60-91 | if the body is in STDIN records and ends with its empty record, that condition holds |
| `FastcgiStream.MapUrlPathLosesBody` | extworker/KChildApiService.cpp:60-91 | a stream for which it does not |
| `FastcgiRuns.AwaitedReply` | extworker/KChildApiService.cpp:60-91 | waiting takes exactly the first reply of the stream, and all later ones are still to come |
| `FastcgiRuns.RunConserves` | include/KFastcgiUtils.h:199-343 | any order of reads on any stream, and of reads and map-path calls on one whose body is in STDIN records, hands out the body in order, nothing lost or repeated |
| `FastcgiRuns.RunServes` | include/KFastcgiUtils.h:311-343 | on an ordered stream each read of such a run gets the next bytes exactly while there are any, and on a strictly ordered one 0 for good from then on |
| `FastcgiRuns.RunReplies` | extworker/KChildApiService.cpp:60-91 | the files that the map-path calls of any run return are reply records of the stream, each once and in order; without reads in between they are the first ones, none passed over |
| `FastcgiStream.Stream.WriteEnd` | include/KFastcgiUtils.h:186-198 | the data stream is ended before the request is |
| `FastcgiStream.Stream.Run` | include/KFastcgiUtils.h:199-343 | any order of reads on any stream, and of reads and map-path calls on one whose body is in STDIN records, hands out the body in order, nothing lost or repeated; on an ordered one each read gets the next bytes exactly while there are any, and on a strictly ordered one 0 for good from then on; the files returned are replies of the stream, each once and in order, and all of them up to the last if no read is in between |
| `FastcgiStream.SentBodyIsOwed` | include/KFastcgiUtils.h:160-343 | a reader of what a server wrote has exactly the written body before it, on a strictly ordered stream |
| `FastcgiParams.ParseParam` | include/KFastcgiUtils.h:39-86 | a payload is accepted with exactly the pairs of section 3.4 of the FastCGI Specification, up to the first one that the environment refuses |
| `FastcgiParams.NoEmptyNames` | include/KFastcgiUtils.h:39-86 | without empty names both decoders accept the same payloads with the same pairs, for every environment |
| `FastcgiParams.ReadParamsPackage` | include/KFastcgiUtils.h:380-436 | the stream decoder agrees with the buffer decoder, apart from refusing empty names |
| `FastcgiParams.ReadParams` | include/KFastcgiUtils.h:344-379 | all pairs up to the empty record reach the environment, and the stream stands behind it |
| `FastcgiParams.ParamsWriter.AddEnv` | include/KFastcgiUtils.h:132-152 | a pair is accepted exactly if it fits a record, and joins those accepted before |
| `FastcgiParams.ParamsWriter.SendParams` | include/KFastcgiUtils.h:437-455 | the buffered pairs leave as one record of whole pairs |
| `FastcgiParams.ParamsWriter.AddEnvEnd` | include/KFastcgiUtils.h:467-476 | everything accepted has been sent, in records of whole pairs of at most 65535 bytes, and the stream is ended |
| `FastcgiParams.LenRoundTrip` | include/KFastcgiUtils.h:523-559 | a length is decoded as it was encoded |
| `FastcgiParams.LengthsOnTheWire` | include/KFastcgiUtils.h:523-559 | a length has the layout of section 3.4 of the FastCGI Specification: one byte up to 127, else four in network order with the top bit set |
| `FastcgiParams.PayloadRoundTrip` | include/KFastcgiUtils.h:39-86 | both decoders return the encoded pairs to an environment that accepts them |
| `FastcgiParams.ParamsRoundTrip` | include/KFastcgiUtils.h:344-436 | what the writer accepted is what the reader hands out, in order |
| `FastcgiParams.HeaderRoundTrip` | include/KFastcgiUtils.h:489-506 | a header comes back as a header without its prefix exactly if its name is not empty |
| `FastcgiParams.EnvRoundTrip` | include/KFastcgiUtils.h:425-429 | a pair reaches the environment as it is exactly if its name is not "HTTP_" with something behind it |
| `FastcgiParams.DeliveriesRoundTrip` | include/KFastcgiUtils.h:344-436 | the pairs and headers given to a writer are those that the environment gets at the other end, in order, and the stream stands behind them |
| `ChildService.NextChar` | extworker/KChildApiService.cpp:113-137 | how one character decides whether a text has an empty line |
| `ChildService.HeaderEndsOnce` | extworker/KChildApiService.cpp:113-137 | there is one place where the first empty line of a text ends |
| `ChildService.TidyIs` | extworker/KChildApiService.cpp:113-137 | the header texts that are sent end with their empty line if and only if none reaches it before its last character |
| `ChildService.BodyIsBehindHeader` | extworker/KChildApiService.cpp:13-145 | for any calls the response has a header that ends, and what follows it is the body, if and only if the status has no empty line in it and the header texts are tidy |
| `ChildService.RestOfOneCall` | extworker/KChildApiService.cpp:113-137 | otherwise, unless the status is to blame, what is in front of the body is the rest of the one header text that completed the empty line |
| `ChildService.HeaderRestIsBody` | extworker/KChildApiService.cpp:113-137 | a header text whose rest is read as body |
| `ChildService.StatusBreakIsBody` | extworker/KChildApiService.cpp:96-112 | a status whose line break ends the header early |
| `ChildService.EmptyTextsCut` | extworker/KChildApiService.cpp:43-59 | calls with an empty text that lose what follows, and one that loses nothing |
| `ChildService.StatusOfResponse` | extworker/KChildApiService.cpp:13-112 | a response starts with the status that the first call sets, with 500 if that is a write, with 200 if there is no call, and with the first header text if that comes first |
| `ChildService.Service.SetStatusCode` | extworker/KChildApiService.cpp:96-112 | the flags and the text follow from the calls: the first call alone can set the status |
| `ChildService.Service.AddHeader` | extworker/KChildApiService.cpp:113-137 | the text is sent exactly if no write and no empty line came before it |
| `ChildService.Service.Scan` | extworker/KChildApiService.cpp:123-136 | the header is closed exactly when its text has an empty line |
| `ChildService.Service.CloseHeader` | extworker/KChildApiService.cpp:138-145 | an open header section is ended, a closed one is left alone |
| `ChildService.Service.WriteClient` | extworker/KChildApiService.cpp:43-59 | body bytes follow a closed header, with a default header if none was sent |
| `ChildService.Service.Finish` | extworker/KChildApiService.cpp:13-42 | the text is the header that the calls make and the bytes written, and the parent gets all of it if and only if the calls are lossless |
| `ChildService.Service.Respond` | extworker/KChildApiService.cpp:13-145 | for any calls, both equivalences at once: what the parent finds behind the header, and whether it gets all |
| `Ajp.Message.Put` | src/KAjpMessage.cpp:41-86 | an item that fits is appended, one that does not spoils the message for good |
| `Ajp.Message.End` | src/KAjpMessage.cpp:87-120 | a sound message becomes one packet, a spoilt or empty one nothing |
| `Ajp.Message.Send` | src/KAjpMessage.cpp:41-123 | a message is sent exactly if all of it fits one packet, and the builder is then ready for the next |
| `Ajp.Message.SendAll` | src/KAjpMessage.cpp:33-123 | of messages built in turn, those before the first that does not fit are sent, one packet each, except empty ones |
| `Ajp.MsgsAppend` | src/KAjpFetchObject.cpp:432-459 | more bytes continue from what was left over and change no earlier packet |
| `Ajp.PacketRoundTrip` | src/KAjpFetchObject.cpp:432-459 | a packet is read back whole, whatever follows it |
| `Ajp.ContainerGetsPacket` | src/KAjpMessage.cpp:96-120 | a packet of the builder begins with the mark 0x12 0x34 that a container expects from a web server, and a container reads its body from it, whatever follows |
| `Ajp.ContainerGetsAll` | src/KAjpMessage.cpp:96-120 | of any messages sent in turn a container gets the bodies, one each, in order |
| `Ajp.ContainerPacketIsRead` | src/KAjpFetchObject.cpp:440-456 | a packet with the mark "AB" of a container is read whole, whatever follows it |
| `Ajp.ItemsOnTheWire` | src/KAjpMessage.cpp:41-86 | items have the layout of AJP/1.3: numbers in network order, strings behind their length and in front of a NUL |
| `Ajp.Parser.Parse` | src/KAjpFetchObject.cpp:432-459 | a header is consumed as soon as it is there, and a body when it is complete |
| `Ajp.Parser.Run` | src/KAjpFetchObject.cpp:251-301 | however the stream is cut into reads, its packets come out once each, in order |
| `Ajp.MessageParser.TakeByte` | include/KAjpMessage.h:129-136 | a byte is taken if there is one, and the position moves behind it |
| `Ajp.MessageParser.TakeShort` | include/KAjpMessage.h:137-145 | a short is taken if there is one, and the position moves behind it |
| `Ajp.MessageParser.TakeString` | include/KAjpMessage.h:146-158 | a string is taken if it is complete and ended, and the position moves behind it |
| `Ajp.GetPut` | include/KAjpMessage.h:129-158 | a getter returns what the matching put wrote |
| `Ajp.MessageRoundTrip` | include/KAjpMessage.h:129-158 | the getters return a whole message as it was put |
| `Ajp.PacketsRoundTrip` | src/KAjpFetchObject.cpp:432-459 | a stream of packets is read as the bodies put into it, and nothing is left over |
| `Ajp.Exchange` | src/KAjpFetchObject.cpp:251-301 | however the stream is cut into reads, the parser hands out one body for every message the builder sends, and the getters read from it the items that were put |
| `PathTrip.TripDir` | include/KFileName.h:72-141 | the array ends up holding the normal form; no index leaves the string and both asserts hold |
| `PathTrip.Component` | include/KFileName.h:97-136 | one component is skipped, taken back or copied down, and the unread part is untouched |
| `PathTrip.Back` | include/KFileName.h:113-128 | the last written component is dropped, if there is one |
| `PathTrip.NormalizeCorrect` | include/KFileName.h:72-141 | the components are those that resolving "." and ".." from the left leaves, no dot component or doubled separator remains, a final separator is kept, and normalising again changes nothing |
| `PathTrip.ParentCancels` | include/KFileName.h:113-128 | a component and the ".." behind it cancel out, wherever they stand in a path |
| `PathTrip.DotVanishes` | include/KFileName.h:97-112 | a "." vanishes, wherever it stands in a path |
| `PathTrip.PlainStays` | include/KFileName.h:129-136 | a path without dot components keeps all its components |
| `PathTrip.RootParent` | include/KFileName.h:113-128 | ".." at the root has no effect |
| `Hostname.RevertHostname` | include/KVirtualHostContainer.h:15-55 | the buffer holds the key and its NUL exactly if the host scans and the key fits; otherwise an empty string, or the labels of the key that fit |
| `Hostname.Scan` | include/KVirtualHostContainer.h:16-39 | the labels are stacked, or the host has a label over 63 bytes or too many labels |
| `Hostname.Emit` | include/KVirtualHostContainer.h:40-55 | the key fits the buffer with its NUL, or the call fails |
| `Hostname.KeyPrefixIsDomain` | include/KVirtualHostContainer.h:15-55 | one key begins another exactly if the labels of the first host are the last ones of the second, each the same text up to the case of letters |
| `Hostname.KeyIsInjective` | include/KVirtualHostContainer.h:15-55 | keys are equal exactly if the labels are, each the same text up to the case of letters |
| `Hostname.LabelsOfHost` | include/KVirtualHostContainer.h:16-39 | the labels of a host written with a dot between any labels are those labels |
| `Hostname.AclHost` | include/KAcl.h:36-49 | the host without its trailing dots |
| `Hostname.StrippedScans` | include/KAcl.h:36-49 | a host without trailing dots scans if and only if it has at most 251 labels, each of at most 63 bytes |
| `Hostname.AclHostKeepsKey` | include/KAcl.h:36-49 | a host and its stripped form have the same key or none, if and only if it is not one of 251 short labels with two or more trailing dots and a buffer that would hold its key |
| `Hostname.AclHostKeepsShortKey` | include/KAcl.h:36-49 | in buffers of up to 502 bytes they always do |
| `Hostname.AclHostLosesKey` | include/KAcl.h:36-49 | a host that has a key only without its trailing dots |
| `Chain.LoopIsAndOfOrs` | include/KChain.h:44-57 | the OR-NEXT loop answers whether every group has a member that holds, and asks what an evaluation from the left with short cuts asks |
| `Chain.MatchAcls` | include/KChain.h:44-57 | the condition loop gives that answer and makes those calls, in order |
| `Chain.ProcessMarks` | include/KChain.h:58-86 | the mark loop makes the same calls until a mark finishes or leaves a source |
| `Chain.CalledIsPrefix` | include/KChain.h:58-82 | the marks called begin the short-cut evaluation and stop early only at one that finishes or with a source |
| `Chain.FinishedIsLast` | include/KChain.h:64-86 | only the last mark called can finish, and what it returns is then the result and a hit |
| `Chain.ResultIsOutcome` | include/KChain.h:64-86 | the result by the marks called: what a finishing mark returned; else success if there is a source; else the answer of the list, deferred exactly if it holds and a mark has deferred |
| `Chain.HitIsUndeferred` | include/KChain.h:64-86 | a hit is counted exactly for a non-zero result that is not deferred, if and only if the last mark called does not both finish and defer |
| `Chain.FinishedDeferralIsHit` | include/KChain.h:65-68 | a deferred result that counts as a hit |
| `Chain.Chain.Match` | include/KChain.h:39-87 | the chain's calls follow from the two lists, its result from the marks called, deferred exactly if the list holds and a mark has deferred, and its hit count from the result |
| `Sources.FlagsMeanHistory` | src/KAccessDsoSupport.cpp:416-437 | the request flags say what has happened: header sent, next opened, body read, and marked for replay |
| `Sources.MarkIsRight` | src/KAccessDsoSupport.cpp:416-437 | the mark says that every byte read can be read again, if and only if none was read late |
| `Sources.UntouchedIsIntact` | include/KHttpRequest.h:283-291 | a request that the flags call untouched can be given to another source, if and only if no byte was read late |
| `Sources.DisciplineSuffices` | include/ksapi.h:199-204 | a module that announces every replay reads nothing late |
| `Sources.LateReadIsMarked` | src/KAccessDsoSupport.cpp:416-437 | a late read that the flags do not see |
| `Sources.Request.Open` | include/KHttpRequest.h:283-291 | the pipeline goes on exactly if the source returned "next" and left the request untouched or marked for replay |
| `Sources.Request.BeforeCache` | src/HttpFiber.cpp:358-370 | the first loop opens the sources before the cache, each only if all before it passed |
| `Sources.Request.Stream` | src/HttpFiber.cpp:88-124 | the second loop goes on to the first source that does not pass |
| `Sources.Request.Serve` | src/HttpFiber.cpp:358-374 | a source is opened exactly if every earlier one passed, or stands before the cache when the cache answers; without late reads each finds the request intact |
| `IpList.List.constructor` | include/KIpList.h:61-70 | an empty list owns nothing |
| `IpList.List.Remove` | include/KIpList.h:71-89 | the address leaves the list; a static item is freed, a dynamic one stays with the queue |
| `IpList.List.AddStatic` | include/KIpList.h:90-109 | the address becomes static with the colour, whatever it was before |
| `IpList.List.AddDynamic` | include/KIpList.h:110-134 | an unknown address becomes dynamic with the current time, a known one is left alone |
| `IpList.HeadIsOldest` | include/KIpList.h:140-150 | if the head of the queue has not expired, no dynamic entry has |
| `IpList.List.Pop` | include/KIpList.h:140-150 | the head is freed, and its address leaves the list only if the list still means this item |
| `IpList.List.Flush` | include/KIpList.h:135-163 | exactly the dynamic entries older than the timeout are dropped, and the collected items, forgotten ones included, are unblocked last first |
| `IpList.List.Find` | include/KIpList.h:164-179 | an address is blocked exactly if it is listed and not white, after the optional flush |
| `IpList.List.ClearDynamic` | src/KIpList.cpp:96-121 | exactly the dynamic entries are dropped, each counted and unblocked once |
| `IpList.List.Clear` | include/KIpList.h:236-255 | every item is freed, and none twice |
| `SpeedLimit.Limiter.GetSleep` | include/KSpeedLimit.h:21-43 | a sleep of 0 to 20000 ms that covers what the limiter has reserved, which is no more than the bytes need at the limit |
| `SpeedLimit.ReservesWhatIsNeeded` | include/KSpeedLimit.h:28-36 | a call reserves the whole milliseconds that its bytes need at the limit, no more and no fewer, from where the last reservation ended, or from now if that is over 5 seconds ago, unless that ends 20 seconds ahead or later |
| `SpeedLimit.ReservedIsAsked` | include/KSpeedLimit.h:28-36 | in any stretch of calls under one limit without a pause of over 5 seconds no more time is reserved than the bytes asked for need |
| `SpeedLimit.Request.GetSleep` | include/KHttpRequest.h:158-169 | the longest answer covers what every limiter has reserved, and each is asked as often as it is listed |
| `SpeedLimit.WindowBound` | include/KHttpRequest.h:404-429 | from any state what is sent is covered by the rest of the window |
| `SpeedLimit.SpeedBound` | include/KSpeedLimit.h:21-43 | in any window without a cut reservation the bytes stay within the largest limit of that time, plus 5 seconds and one millisecond a call |
| `SpeedLimit.WaitsCopies` | include/KHttpRequest.h:158-169 | a limiter listed several times is asked several times for one send, which waits for each of its reservations |
| `SpeedLimit.Run` | include/KHttpRequest.h:404-412 | for any interleaving of writes of requests that share limiters and of changes of limits, every limiter sees sends that wait for what it reserved, keeps its bound in every window, each ask counted as a call, and in every busy stretch reserves no more time than the bytes need |
| `SpeedLimit.SequentialIsUncut` | include/KSpeedLimit.h:21-43 | a limiter asked only after its last bytes have gone out, and for no write that alone costs more than the cap, cuts nothing |
| `SpeedLimit.CutWhen` | include/KSpeedLimit.h:31-36 | a reservation is cut exactly if it lies more than 20 seconds ahead |
| `SpeedLimit.CapBreaksBound` | include/KSpeedLimit.h:31-36 | a send that waits as it should and for which the bound fails |
| `RWLock.StepKeeps` | include/KRWLock.h:13-54 | every step keeps the counter at -1 for one writer alone, and else at the number of readers |
| `RWLock.RunKeeps` | include/KRWLock.h:13-54 | so does every run of any number of threads |
| `RWLock.Exclusion` | include/KRWLock.h:13-54 | a writer is alone in every run |
| `RWLock.CounterFits` | include/KRWLock.h:14-26 | the counter never leaves 32 bits with fewer threads than that |
| `RWLock.FreeLockIsTaken` | include/KRWLock.h:13-44 | every run that leaves the lock free can go on by two steps of an idle thread that take it |
| `Workers.StepKeeps` | extworker/main.cpp:36-112 | a step of a thread keeps the shared invariant and what the thread relies on |
| `Workers.StepSpares` | extworker/api_child.cpp:41-72 | a step of a thread leaves what every other thread relies on |
| `Workers.RunKeeps` | extworker/main.cpp:36-112 | every run keeps both |
| `Workers.ReapedAreAccounted` | extworker/main.cpp:65-102 | a reaped worker is always registered, and is with one thread, or replaced by one worker of its own, or given up because of a quit or a failure |
| `Workers.NoRestartAfterKill` | extworker/api_child.cpp:41-72 | once a killall has left its critical section nothing is restarted |
| `Workers.RestartedAreKilled` | extworker/main.cpp:36-63 | from then on every restarted worker has been killed or reaped |
| `Workers.PoolIsKept` | extworker/api_child.cpp:436-445 | at rest, without quit or failure, there are as many registered workers as commands asked for |
| `Workers.LostCanBeReplaced` | extworker/main.cpp:65-102 | every run that leaves an ended worker, a free thread, a free lock and no quit can go on until that worker is replaced, and nothing else is changed by that |
| `Workers.CommandCanBeServed` | extworker/api_child.cpp:436-445 | every run that leaves a free thread and a free lock can go on until a command has added one registered worker |
| `Workers.KillCanEnd` | extworker/main.cpp:36-63 | every such run can go on until a killall has ended, having killed exactly the registered workers |

## Left out

- If-Match, If-Unmodified-Since and If-Range: the cache passes the first two over, and the last is one comparison.
- Entity tags that contain commas: the list is split at every comma, so such a tag is not one member.
- PreconditionEntity: the splitting of field values is that of `KHttpFieldValue`, which is not part of this model.
- Restoring the progress file of a partly cached object and the throttling of fetchers.
- Revalidation.Fiber.LoadFromSource: range requests, cache updates by a source and failed requests are not modelled.
- BigObject.SharedObject.CloseWrite: the exchange of a finished object for a plain one is not modelled.
- BigObject.SharedObject.Find: walks a sorted list where the code descends a tree; such a descent is proved for the object index.
- BigObject.SharedObject.Partition: merged waiting lists are concatenated, while the code merges them by address.
- IpList.List.Flush: items are freed as they leave the queue, while the code frees them after the lock; list links are a sequence.
- IpList reporting of addresses and firewall commands, apart from which addresses are unblocked.
- cmd_create_process in the shutdown claim: it does not look at the quit flag, so `Workers.NoRestartAfterKill` speaks about restarts only.
- The pause of a restart after a short-lived worker, which changes no state.
- Nested source loops that a source starts itself: they count as an open_next call.
- ChildService.Service.Finish: draining the request body is a step of its own, `FastcgiStream.Stream.Drain`.
- FastcgiStream.SentBodyIsOwed: speaks about servers that send the body in non-empty STDIN writes; an empty write ends the stream.
- Ajp.Parser.Run: what is done with each type of message is not modelled.
- Sources.Request.Serve: the list of sources is fixed before the first one is opened.
- Sources.Request.Stream: the same holds for the second loop.
- Workers.RunKeeps: the loop over registered workers in killall takes them in any order.
- The swapping list, disk cache files, virtual host lookup, configuration, consoles, TLS, regular expressions and compression.
- Sockets, fibers and processes, which are byte sequences, parameters or atomic steps here.
