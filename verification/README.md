# Verified model of the Go module proxy

The proxy serves the go.mod file, the zip and the commit time of a module version from three storage
objects: a short-lived "concat" object that is created exclusively and decides which download of the
version counts, and the final "gomod" and "zip" objects that a background indexer makes of it before it
deletes the concat object. There are no locks; any number of replicas run the same handlers. The project
models that protocol, the bytes that carry a copy, and the stateful helpers around them.

## The protocol

`ObjectStore.dfy` is the storage contract, `Service.dfy` the handlers, one step per storage request, with any
number of requests, indexers and listings in any interleaving. A write whose reply is lost may take effect
later, any number of times, also after its caller has stopped. `log` records which concat creations took
effect; the first one is the chosen copy. `Consistency.dfy` has the inductive invariant,
`StrongConsistency.dfy` and `ServiceList.dfy` the theorems about runs; `RequestPaths.dfy` says what a request does on its
way: it looks in both places before it downloads, and left alone it comes to its answer in at most six steps.

The unconditional wording in README.md:21-24 of the repository is stronger than the code. After the delete
(internal/service/gomodule/gocmd/service.go:548), a request that had missed both lookups can create the
concat object again and return its own download. `RequestWindow.dfy` says exactly when the promise holds, for every
state that a run can reach. A request that has not looked yet is sure to answer with the copy of record if and only
if the object of its first lookup exists, or the version is committed and no indexer is at work on it
(`RequestIsSafeIff`): the window is from before the commit to the creation of that object. A request that has missed
is sure to do so if and only if the concat object is there to stay and agrees with the copy of record
(`InFlightIsSafeIff`). `Counterexamples.dfy` has the answers that go wrong in both parts of the window, for any two
differing downloads. What holds without a condition: the durable objects never disagree, and any other answer than
the chosen one overlaps a re-creation of the concat object. A request for a canonical version is followed for the
version it asked for; should the go command report another version, the durable theorems still apply to both.

"List after read is strongly consistent" (README.md:26) depends on the order of the pages that a private listing
reads, and `ListOrder.dfy` says how: for a sequence of pages, every listing that reads them names what was read
before it started exactly if a concat page that covers the version comes before a gomod page that covers it
(`ListAfterReadIff`). `RestOfListIsSafeIff` is the condition for what is left of a listing, in every state that a run
can reach. The code reads the two kinds of pages concurrently, so both orders occur.

The handlers are transitions on values, because the theorems are about interleavings between the storage requests.

## The bytes

`Varint.dfy`, `ConcatObj.dfy`, `ConcatObjReader.dfy`, `ConcatReader.dfy`, `Upload.dfy` and `ConcatObjParser.dfy`
follow a copy from two files through the exclusive upload to the parser, and `Pipeline.dfy` joins them: what is
stored is the encoding of the copy, and what is served of it is the copy. `Sources.dfy` has the readers that occur
behind an io.Reader. Two behaviours are kept as coded.

* internal/service/gomodule/gocmd/storageconcatobj.go:124 asks for a slice of minus the number of remaining
  bytes. Parsing succeeds exactly if the first chunk holds both varints and does not reach beyond go.mod;
  beyond it the parser panics (`NegativeLength`), for example for a go.mod of eleven bytes and a first chunk of twenty.
* internal/util/concatreader.go:37 indexes the prefix also when the position is negative. A copy whose inner
  reader reports its end on its own panics exactly if the suffix exceeds the room that is left in the buffer then;
  an upload therefore needs buffers of at least 70 bytes, and more if there is no data between header and trailer.

## The helpers

`NoProxy.dfy` and `BypassMeaning.dfy` (proxy bypass list), `Environ.dfy`, `GitConfig.dfy`, `CmdLog.dfy`,
`Lifetime.dfy` and `RefCounts.dfy` (reference counts), `TokenPool.dfy` and `PrivateModules.dfy`. Two more behaviours are kept as coded.

* internal/util/environ.go:39-41 does not copy the case rule, so a copy always ignores case. It answers like the
  original exactly if the original ignores case too or has all spellings of its names with equal values; without
  two spellings of one name that means names without letters. What is set on a copy can still be looked up.
* internal/git/config.go:55 quotes on `#` and `:` but not on `;`. git reads a value back exactly if it has no
  semicolon or is quoted for another reason.

`HttpProxy.Net` holds the functions of Go's net package; `HttpProxy.Lawful` lists all that is assumed of them, and
`LawfulNetExists` shows that it can be met.

## Model

| member | source | states |
|---|---|---|
| RequestWindow.RequestIsSafeIff | README.md:21-24 | in every reachable state, a request that has not looked yet is sure to answer with the copy of record, whatever happens, exactly if the object of its first lookup exists, or the version is committed and no indexer is at work on it |
| RequestWindow.InFlightIsSafeIff | internal/service/gomodule/gocmd/service.go:305-358 | in every reachable state, a request that has missed, is downloading, is creating or has lost the race is sure to do so exactly if the concat object cannot be removed any more and agrees with the copy of record |
| RequestPaths.DownloadsOnlyAfterMisses | internal/service/gomodule/gocmd/service.go:313-321 | a request that arrived for a version downloads only after it has looked for the final object and then for the concat object, a latest request the other way round, and found neither; background caching after it has missed the gomod object |
| RequestPaths.AnchoredIsNotDownloaded | internal/service/gomodule/gocmd/service.go:405-411 | a version whose concat object cannot be removed any more when the request arrives is never downloaded for it |
| RequestPaths.OwnStepsMakeProgress | internal/service/gomodule/gocmd/service.go:305-358 | in every reachable state, every definite step of a request or an indexer brings it closer to its end, and a request of a client ends with an answer only |
| RequestPaths.LeftAloneItAnswers | internal/service/gomodule/gocmd/service.go:397-453 | from every reachable state, a request left alone gets to an answer in at most six steps of its own |
| RequestPaths.WarmUpNeverAnswers | internal/service/gomodule/gocmd/servicelist.go:163-199 | background caching answers nobody |
| RequestPaths.CreationLeadsToCompletion | internal/service/gomodule/gocmd/service.go:280-290 | a confirmed creation starts an indexer, which left alone completes the version and removes the concat object |
| StrongConsistency.DurableAgreement | internal/service/gomodule/gocmd/service.go:498-557 | in every run the gomod and zip objects are those of the first concat object ever created, never change and never go, and until both exist the concat object holds that copy |
| StrongConsistency.StoredMeansCommitted | internal/service/gomodule/gocmd/service.go:275-292 | nothing is stored for a version before a concat creation took effect |
| StrongConsistency.AnswersAreLoggedDownloads | internal/service/gomodule/gocmd/service.go:271-292 | every answer is the view of one single download whose concat creation took effect |
| StrongConsistency.OneCreationOneCopy | internal/service/gomodule/gocmd/service.go:305-358 | with one concat creation per version all endpoints of all replicas answer with one copy |
| StrongConsistency.MissProvesUncommitted | internal/service/gomodule/gocmd/service.go:612-619 | a missing concat object and later a missing gomod or zip object prove that nothing was committed at the first look |
| StrongConsistency.LatestDownloadsOnlyUncommitted | internal/service/gomodule/gocmd/service.go:612-645 | a public latest request downloads only what was not committed when it first looked |
| StrongConsistency.LosersAlwaysFindAnObject | internal/service/gomodule/gocmd/service.go:447-452 | after a refused creation the concat lookup or the one behind it always answers, the latter with the chosen copy |
| StrongConsistency.DeletesOnlyWhenComplete | internal/service/gomodule/gocmd/service.go:537-557 | the concat object is deleted only when both final objects exist, however late the deletion arrives |
| StrongConsistency.RequestsAfterCompletion | internal/service/gomodule/gocmd/service.go:397-415 | a request whose first lookup is still to come when the object of that lookup exists can only answer with the chosen copy |
| StrongConsistency.FirstLookupIsChosen | internal/service/gomodule/gocmd/service.go:711-723 | an answer from the first lookup is the chosen copy |
| StrongConsistency.StaleAnswersOverlapRecreation | internal/service/gomodule/gocmd/service.go:305-358 | any other answer made its first lookup before completion and a re-creation of the concat object lies between that lookup and the answer |
| StrongConsistency.AnyDownloadIsChosenIff | internal/service/gomodule/gocmd/service.go:275-292 | whatever a request downloads, its creation of the concat object returns the copy of record exactly if the version is not complete |
| Counterexamples.ClaimFailsWithoutCondition | README.md:21-24 | from every state in which a version is not committed and a request has yet to look, that request can answer with any second download after another one reported any first one, and a later one reports the first again |
| Counterexamples.ClaimFailsWhileMoving | README.md:21-24 | from every state in which an indexer is at work on a version and a request has yet to look for an object that is not there, that request can answer with any second download, and a later one reports the copy of record |
| Consistency.EffectIsSafe | internal/service/storage/storage.go:10-19 | a write that was issued soundly keeps every cell sound whenever and however often it arrives |
| Consistency.StepKeepsInv | internal/service/gomodule/gocmd/service.go:188-294 | every step of requests, indexers and listings, crashes and lost replies included, keeps the invariant and undoes nothing |
| ServiceList.ListContainsStable | internal/service/gomodule/gocmd/servicelist.go:37-83 | a listing without errors names every non-pseudo version whose gomod object existed at its start or whose concat object persisted |
| ListOrder.ListAfterReadIff | README.md:26 | a listing that reads these pages names, in every run, what was read before it started exactly if a concat page that covers the version comes before a gomod page that covers it |
| ListOrder.RestOfListIsSafeIff | internal/service/gomodule/gocmd/servicelist.go:86-113 | in every reachable state, and for every way to read the pages that are left, the listing is sure to have the version in its result exactly if it has named it, or it is committed and a concat page and then a gomod page cover it, or its gomod object exists and a gomod page covers it, or its concat object cannot be removed any more and a concat page covers it |
| ListOrder.ListCanStillMiss | internal/service/gomodule/gocmd/servicelist.go:45-46 | in every state in which the gomod pages that cover an unnamed version are read and an indexer is at work on it, the listing can still return without it, also among the versions of the go command |
| ServiceList.ListInOrder | internal/service/gomodule/gocmd/servicelist.go:45-113 | if no gomod page covers a version before a concat page has, the result names it if it was committed before the listing started, whatever indexers do |
| ServiceList.ListAfterRead | internal/service/gomodule/gocmd/servicelist.go:45-113 | in particular with the concat pages all read before the first gomod page |
| Counterexamples.ListCanMissCommitted | internal/service/gomodule/gocmd/servicelist.go:45-46 | for any version and copy there is a run in which a listing misses a version committed before it started |
| ServiceList.ListResultIff | internal/service/gomodule/gocmd/servicelist.go:71-83 | the result of a listing is exactly what the go command reported and what the pages have shown of the module without pseudo-versions |
| ServiceList.NamesAreRead | internal/service/gomodule/gocmd/servicelist.go:86-113 | a listing has named exactly the versions of its module whose objects its pages have shown |
| ServiceList.ListIsSound | internal/service/gomodule/gocmd/servicelist.go:100-105 | what a listing takes from storage was committed, belongs to the module and is no pseudo-version |
| Varints.UvarintRoundTrip | internal/service/gomodule/gocmd/storageconcatobj.go:40-41 | every 64-bit number is read back, wherever it stands |
| Varints.VarintRoundTrip | internal/service/gomodule/gocmd/storageconcatobj.go:31-34 | every int64 time is read back |
| Varints.DecodeCutOff | internal/service/gomodule/gocmd/storageconcatobj.go:105-115 | a number that is cut off is an error and never another number |
| Varints.ReadUvarint | internal/service/gomodule/gocmd/storageconcatobj.go:111-115 | the reading loop computes the decoding function |
| Varints.UvarintFormat | internal/service/gomodule/gocmd/storageconcatobj.go:40-41 | groups of seven bits, lowest first, with the high bit on all bytes but the last one, make up the number |
| Varints.GetUvarintFits | internal/service/gomodule/gocmd/storageconcatobj.go:111-115 | no number beyond 64 bits is ever read |
| ConcatObj.PrefixFits | internal/service/gomodule/gocmd/storageconcatobj.go:99 | the two varints always fit the twenty-byte buffer |
| ConcatObj.ParseOfEncoded | internal/service/gomodule/gocmd/storageconcatobj.go:98-132 | what the parser does with the first n bytes of a written object, for every n |
| ConcatObj.ParseSucceedsIff | internal/service/gomodule/gocmd/storageconcatobj.go:121-130 | parsing succeeds exactly if the chunk holds both varints and does not reach into the zip, and then time, go.mod and zip come back |
| ConcatObj.ParseOfPrefix | internal/service/gomodule/gocmd/storageconcatobj.go:116-130 | the result for any chunk that begins with two varints, a size that does not fit included |
| ConcatObj.TinyGoModCannotBeParsed | internal/service/gomodule/gocmd/storageconcatobj.go:124 | a concrete object that the parser panics on |
| ConcatObjParser.ParseConcatObj | internal/service/gomodule/gocmd/storageconcatobj.go:98-132 | parsing by one short read is the chunk parser on what was read |
| ConcatObjParser.GoModFromConcatObj | internal/service/gomodule/gocmd/service.go:360-395 | if no Read fails, a reader is handed out exactly if the first chunk holds both varints and does not reach into the zip, and the object is refused exactly if the chunk is too short; the reader, which shares its position with the body, delivers go.mod; a crash means a go.mod too short for the first chunk |
| ConcatObjParser.ZipFromConcatObj | internal/service/gomodule/gocmd/service.go:766-799 | under the same exact conditions what is left to read, from the body or the reader, is the zip |
| ConcatObjParser.GoModResponse | internal/service/gomodule/gocmd/service.go:360-395 | a client that reads the response to its end has go.mod, in whatever chunks, the reader never panics, and if no Read fails the response ends exactly if the chunk covers the copy |
| ConcatObjParser.ZipResponse | internal/service/gomodule/gocmd/service.go:766-799 | likewise the zip |
| ConcatObjParser.TimeFromConcatObj | internal/service/gomodule/gocmd/service.go:455-480 | under the same exact conditions the commit time comes back |
| ConcatObjReaders.ConcatObjReader.constructor | internal/service/gomodule/gocmd/storageconcatobj.go:26-48 | the content is the encoding of the copy |
| ConcatObjReaders.ConcatObjReader.Read | internal/service/gomodule/gocmd/storageconcatobj.go:50-76 | delivers the next bytes of prefix, go.mod and zip for any buffer and any short reads, makes progress, fails exactly if a file does, and reports the end with or after the last byte |
| ConcatObjReaders.ConcatObjReader.SeekStart | internal/service/gomodule/gocmd/storageconcatobj.go:85-96 | from any state it succeeds exactly if both files do, and then starts the content over |
| ConcatObjReaders.ConcatObjReader.Seek | internal/service/gomodule/gocmd/storageconcatobj.go:78-84 | every other seek is an error and moves nothing |
| ConcatObjReaders.ConcatObjReader.ReadAll | internal/service/gomodule/gocmd/storageconcatobj.go:50-76 | copying with buffers of any sizes ends, and delivers the content exactly if no file fails |
| ConcatObjReaders.WriteTwice | internal/service/gomodule/gocmd/storageconcatobj.go:50-96 | a first partial pass is a prefix of the encoding and a second pass after a seek is all of it |
| ConcatReaders.ConcatReader.Read | internal/util/concatreader.go:33-64 | delivers prefix, inner content and suffix for any chunking, ends with the last byte, fails exactly if the inner reader does, and panics exactly at a negative position |
| ConcatReaders.ConcatReader.Copy | internal/util/concatreader.go:33-64 | the copy ends with EOF, and not with the panic, exactly if the suffix fits into what is left of the buffer in which the inner reader ended |
| ConcatReaders.ConcatReader.ReadAll | internal/util/concatreader.go:33-64 | a copy with buffers of any sizes, cut short or not, delivers a prefix of the content and EOF with its end; it panics only if the suffix does not fit into the buffer in which the inner reader ends, and always if no buffer has room for it |
| Upload.SumInt64 | internal/util/math.go:20-33 | the sum of any 64-bit integers, or an overflow exactly if a partial sum does not fit |
| Upload.LengthsFitIff | internal/util/math.go:7-33 | for lengths that is exactly if the sum does not fit |
| Upload.BodyIsMultipart | internal/service/storage/gcs/gcs.go:131-148 | the body is a multipart body of the metadata as JSON and the data |
| Upload.CreateObjectExclusively | internal/service/storage/gcs/gcs.go:99-207 | the result is that of the last reply: success exactly for a creation, which has stored the data, a refusal exactly for a taken name, a crash exactly if a buffer had no room for the trailer; transient replies are retried, and there are no other errors than a missing name, data that cannot be read, a length that does not fit, a fatal reply and a lack of patience; every request carries header, data and trailer and their length, and nothing but the data is ever stored |
| Pipeline.StoreCopy | internal/service/gomodule/gocmd/service.go:271-279 | two downloaded files are stored as the encoding of their copy and as nothing else, with the result of the last reply |
| Pipeline.StoreAndServe | internal/service/gomodule/gocmd/storageconcatobj.go:26-132 | time, go.mod and zip served from a stored copy are those of the copy, whatever the chunks, and if no Read fails each is served exactly if its first chunk covers the copy |
| Upload.Attempt | internal/service/storage/gcs/gcs.go:118-160 | the same for one round of the loop |
| HttpProxy.ParseNoProxy | internal/httpproxy/httpproxy.go:56-147 | the parsing loop computes the fold over the elements, also the list that is returned beside an error |
| HttpProxy.FormatLibcurlCompatible | internal/httpproxy/httpproxy.go:152-214 | formatting yields an asterisk for one, succeeds otherwise exactly without CIDRs and ports, and yields the joined entries |
| BypassMeaning.BypassListKeepsMeaning | internal/httpproxy/httpproxy.go:149-272 | parsing the formatted text again gives the same decision for every host and port, with and without loopback names |
| BypassMeaning.LawfulNetExists | internal/httpproxy/httpproxy.go:71-110 | the assumptions about the net package can be met |
| BypassMeaning.BypassesIff | internal/httpproxy/httpproxy.go:240-272 | the decision in terms of the text of the elements: an asterisk, a local host, or an element whose network, address or pattern, and port, match |
| BypassMeaning.AddressBypassesIff | internal/httpproxy/httpproxy.go:244-258 | an address bypasses the proxy exactly if it is a loopback address or an element's network or address and port match it |
| BypassMeaning.NameBypassesIff | internal/httpproxy/httpproxy.go:259-269 | a name bypasses the proxy exactly if it is local or an element's pattern and port match it |
| BypassText.ParseFailsIff | internal/httpproxy/httpproxy.go:75-124 | a list is an error exactly if an element is: a host without a name, a port that is no positive 32-bit number, or a name that is neither an address nor ASCII |
| BypassText.PaddingDoesNotMatter | internal/httpproxy/httpproxy.go:59-64 | spaces around the elements of a list change nothing of what is parsed |
| BypassText.SameElementsParseAlike | internal/httpproxy/httpproxy.go:59-64 | lists whose elements are the same but for spaces and letter case are parsed alike |
| BypassText.HostPortIs | internal/httpproxy/httpproxy.go:75 | a host with a port is a plain name or a bracketed name, a colon and a port, and nothing else |
| BypassText.HostPortOfPlain | internal/httpproxy/httpproxy.go:75 | a plain name, a colon and a port are read as such |
| BypassText.HostPortOfBrackets | internal/httpproxy/httpproxy.go:75-84 | a bracketed name, which may have colons, and a port are read as such |
| BypassText.ParseDecimal | internal/httpproxy/httpproxy.go:90-101 | every port number is read back, and a number beyond 32 bits is an error |
| BypassText.NameWithPort | internal/httpproxy/httpproxy.go:75-101 | a name with a port, padded or not, is the pattern of that name for that port |
| BypassText.FormattedEntries | internal/httpproxy/httpproxy.go:163-214 | the formatted text lists the kept domains, the kept addresses and, if asked for, the names of the local host |
| BypassMeaning.DomainReadsBack | internal/httpproxy/httpproxy.go:125-136 | a domain entry without a port reads back as itself |
| Text.SplitJoined | internal/httpproxy/httpproxy.go:183-186 | splitting a formatted list gives its entries back |
| Text.SplitCommas | internal/httpproxy/httpproxy.go:59 | splitting gives back any elements that were put together with commas, empty ones included |
| Text.CommasOfSplit | internal/httpproxy/httpproxy.go:59 | and the other way round |
| Text.TrimCuts | internal/httpproxy/httpproxy.go:60 | what is trimmed off a text is space on both sides |
| Text.TrimPadded | internal/httpproxy/httpproxy.go:60 | spaces around a text do not change what is left of it |
| Environs.Environ.constructor | internal/util/environ.go:14-33 | the first entry of each normalized name is kept, in order, under an exact index |
| Environs.Environ.Lookup | internal/util/environ.go:70-85 | lookup by index is lookup in the list of entries; it panics exactly on a name with an equals sign |
| Environs.Environ.Set | internal/util/environ.go:87-101 | updates in place or appends, keeps an exact index exact, and on any environment, copies included, changes one lookup only |
| Environs.Environ.Unset | internal/util/environ.go:103-126 | removes one entry, keeps values and order of the others and rebuilds the index, exact if the environment has one case rule; on any environment every lookup then gives the last pair of its name |
| Environs.Environ.Copy | internal/util/environ.go:35-47 | an independent copy that ignores case |
| Environs.CopyIsFaithfulIff | internal/util/environ.go:35-47 | such a copy answers like the original for every name exactly if case is ignored or all spellings of each name are there with equal values |
| Environs.CaseClosedWithoutTwins | internal/util/environ.go:39-41 | without two spellings of one name that means names without letters |
| Environs.CopyLosesPath | internal/service/gomodule/gocmd/tempgoenv.go:91 | the search path as a concrete lookup that fails in the copy |
| Environs.CopyThenSet | internal/service/gomodule/gocmd/tempgoenv.go:91-98 | what is set on a copy is found there, other lookups and the original are unchanged |
| Environs.LookupAfterSet | internal/util/environ.go:87-101 | on any environment a Set changes one lookup and no other |
| Environs.FirstEntryWins | internal/util/environ.go:19-32 | of several pairs for one name the first counts |
| Environs.FindAfterPut | internal/util/environ.go:87-101 | after a Set the name has the value and every other lookup is unchanged |
| Environs.FindAfterRemove | internal/util/environ.go:103-126 | after an Unset the name is gone and every other lookup is unchanged |
| GitConfig.WriteKeyValuePair | internal/git/config.go:44-88 | the line is written exactly if there is no zero byte and the writer does not fail; otherwise a part of it, and nothing for a zero byte |
| GitConfig.ValueRoundTripIff | internal/git/config.go:54-87 | git reads the value back exactly if it has no semicolon, or has a hash sign, a colon or a space at either end |
| GitConfig.ValueStaysOnItsLine | internal/git/config.go:62-87 | the only raw line feed is the last character |
| CmdLog.CmdStdoutStderr.Write | internal/service/gomodule/gocmd/cmd.go:98-118 | after each write the log has the line split of each descriptor's stream |
| CmdLog.CmdStdoutStderr.Done | internal/service/gomodule/gocmd/cmd.go:75-83 | the unterminated rest of each stream is added, of stdout first |
| CmdLog.Collect | internal/service/gomodule/gocmd/cmd.go:75-118 | for any interleaving and any chunks the log of a descriptor depends on its stream only, and stdout is the exact concatenation |
| CmdLog.LinesAppend | internal/service/gomodule/gocmd/cmd.go:98-118 | splitting into lines is compositional behind any line feed |
| CmdLog.LinesOfUnlines | internal/service/gomodule/gocmd/cmd.go:98-118 | the split of lines that were put together with line feeds gives them back |
| CmdLog.LineEndings | internal/service/gomodule/gocmd/cmd.go:109-113 | one carriage return in front of a line feed belongs to the end of the line, another one to the line |
| RefCounts.SharedFD.RemoveRef | internal/service/gomodule/gocmd/sharedfd.go:36-47 | closes the file with the last reference and only then; an error of the close is passed on |
| RefCounts.TempGoEnv.RemoveRef | internal/service/gomodule/gocmd/tempgoenv.go:125-149 | removes the directory with the last reference and only then, unless the removal fails; reports an error exactly if it does or the walk before it did |
| RefCounts.TempGoEnv.Open | internal/service/gomodule/gocmd/tempgoenv.go:111-123 | hands out a reader, and adds one holder, exactly if the name is valid, there is a holder and the file opens; panics exactly if there is no holder |
| RefCounts.TempGoEnvFD.Close | internal/service/gomodule/gocmd/tempgoenv.go:184-199 | only the first call gives the reference back, unless closing the file fails |
| RefCounts.CloseOften | internal/service/gomodule/gocmd/tempgoenv.go:184-191 | any number of calls with any outcomes do what the first one does |
| Lifetime.UsedMeansAlive | internal/service/gomodule/gocmd/tempgoenv.go:107-131 | in every interleaving whoever uses the directory or a file finds it in place |
| Lifetime.ReleasedAtMostOnce | internal/service/gomodule/gocmd/sharedfd.go:31-47 | nothing is released twice |
| Lifetime.EverythingIsReleasedIff | internal/service/gomodule/gocmd/tempgoenv.go:170-199 | in the end the files are closed and the directory is removed once, exactly if closing the response file succeeded |
| Lifetime.StepsMakeProgress | internal/service/gomodule/gocmd/tempgoenv.go:107-131 | every step of the handler and the indexer brings it closer to its end |
| Lifetime.RequestIsServed | internal/service/gomodule/gocmd/service.go:246-358 | without an error the response is opened and the indexer has the directory and both files when the handler is gone |
| TokenPool.Pool.Acquire | internal/service/gomodule/gocmd/maxparallelismresourcepool.go:30-38 | a cancelled acquire takes nothing, another takes one token, free tokens and holders make up the maximum |
| TokenPool.Pool.Release | internal/service/gomodule/gocmd/maxparallelismresourcepool.go:40-50 | the first release puts one token back, never blocks, and repeating it does nothing |
| TokenPool.HandlerReleases | internal/service/gomodule/gocmd/service.go:190-200 | early and deferred releases together give back one token |
| PrivateModules.IsDescendantIff | internal/util/path.go:3-16 | the code has the documented meaning |
| PrivateModules.OverlapIff | internal/util/path.go:5-16 | two prefixes match a common path exactly if one is a descendant of the other |
| PrivateModules.ValidatePrivateModules | internal/config/loader.go:319-339 | no error exactly if all elements are valid and no two prefixes overlap |
| PrivateModules.ValidateElement | internal/config/loader.go:341-361 | an element is valid exactly if no error was added, and then the host is the first part of its prefix |
| PrivateModules.FirstMatch | internal/service/gomodule/gocmd/service.go:296-303 | the scan finds the first matching element if there is one |
| PrivateModules.LookupIsOrderIndependentIff | internal/server/credentialhelper/git/git.go:50-56 | the first match is the same in every order for every path exactly if no two different elements overlap |
| PrivateModules.AcceptedListsAreOrderIndependent | internal/config/loader.go:319-339 | that is so in every list that the validation accepts |

## Left out

- Service.Next: one storage lookup, with the reading and parsing of the object it opened, is one step; the parser's panic is a Stop step; update in place of handler variables is not modelled.
- Service.Next: the go and git commands, HTTP routing, time-outs and error texts; downloads are arbitrary copies with whole-second commit times, so a fraction of a second in a fresh `.info` answer is not modelled.
- ServiceList.ListAfterRead: listings of public modules go to the parent proxy; the page token of internal/service/storage/gcs/gcs.go:243-260 is never sent; pages follow the interface contract of internal/service/storage/storage.go:31-33.
- Upload.CreateObjectExclusively: MD5, the JSON text of the metadata and back-off times; all attempts use buffers of the same sequence of sizes, and retries end when the context does.
- ConcatObjParser.GoModFromConcatObj: closing the object body.
- ConcatReaders.ConcatReader.Copy: the buffer in which a non-empty inner reader ends depends on short reads, which are not inputs of the model; for buffers of different sizes ReadAll bounds the panic from both sides, for buffers of one size it is exact.
- HttpProxy.ParseNoProxy: error texts; lower-casing changes ASCII letters only, here and in the environment.
- CmdLog.CmdStdoutStderr.Write: calls for the two descriptors are atomic here; the goroutines that os/exec starts for them share the log without a lock.
- GitConfig.ValueRoundTripIff: values with CR, which git may drop or join with a line feed; section names.
- Lifetime.UsedMeansAlive: finalizers; a removal of the directory that fails counts as its release.
- TokenPool.Pool.Acquire: waiting for a token; a call that would wait returns without one.
- The GitHub, GCE and IAM clients, access control, the forward and sumdb proxies and configuration parsing other than the overlap check are not part of this model.
