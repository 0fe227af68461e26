# Kaskade: a verified model

Kaskade is a terminal interface for Kafka: an admin mode that lists topics and their consumer
groups, a consumer that pages through a topic, and a producer that encodes records against local
or registered schemas. This project models the parts of it that run algorithms on unbounded data
and proves what they promise. Everything that talks to Kafka, a schema registry, a clock or a
terminal appears as a parameter or as a nondeterministic choice.

| file | models |
|---|---|
| `Graphs.dfy` | walks, reachability, cycles and dependencies-first orders of reference graphs |
| `DescriptorPool.dfy`, `PoolClashes.dfy` | building a Protobuf descriptor pool, with the files bundled with protobuf |
| `SchemaDocuments.dfy`, `JsonDocuments.dfy` | document trees, and loading one from JSON Schema files |
| `Collectors.dfy`, `NamedSources.dfy`, `NamedResources.dfy`, `NamedContents.dfy` | gathering the documents a schema references |
| `Registration.dfy` | registering a document tree, references first |
| `Refresh.dfy` | the refresh coordinator and the topic list that drives it |
| `OperationLock.dfy` | blocking client calls under one lock, with cancellation |
| `Consumer.dfy` | paging through a topic with filters and retries |
| `LruCache.dfy`, `ApicurioClient.dfy` | the bounded cache, expiring entries, the request retry loop |
| `Wire.dfy`, `Framing.dfy`, `MessagePaths.dfy` | varints, zigzag, registry framing, nested message names |
| `ByteText.dfy`, `NumberLists.dfy` | bytes as Base64, hexadecimal, number lists and escaped text |
| `Stretch.dfy` | proportional column widths |
| `TopicMetrics.dfy`, `GroupLag.dfy` | metric readiness over refreshes, and consumer-group lag |

Code that changes state in place is a class whose methods are proved equal to a specification
function of the old state, or directly against the promised property; what the source promises is
then proved about that function, over every input and every run. Varints and zigzag follow the
sections "Base 128 Varints" and "Signed Integers" of the Protocol Buffers encoding specification,
Base64 and hexadecimal sections 4 and 8 of RFC 4648, number lists sections 5 and 6 of RFC 8259. Bitwise operations on disjoint bits are
written as arithmetic; zigzag uses an exclusive or on integers of any size, as Python does.

Hypotheses. A registry answers a reference key always the same way. A descriptor is stored under
its own name, and the bundled files load in import order. Sibling messages have distinct,
non-empty names without dots. A poll returns at most the messages asked for, in log order, and
none before the consumer is assigned. Tokens are always issued when an endpoint is configured.

Where a promise fails for some inputs, an input is given and the exact condition is proved:

- A bundled file that imports a given name puts its own version of that file into the pool, so a
  cycle can go unreported (`ClashHidesCycle`). Cycles are reported exactly, however the given files
  import each other, if and only if no bundled file imports a given name (`NoClashExact`). The pool
  is what the root means, however they do, if and only if every such bundled file leads back to the
  root (`BuildAlwaysExact`); for one set of imports only those within reach count (`BuildExact`).
- The mutation flag is not a counter: overlapping mutations let a refresh start while one of them
  still runs (`OverlappingMutationsUnlock`). The flag says along a whole run whether a mutation runs
  if and only if every mutation that finishes is the only one (`FlagIsExact`).
- A second cancel of a caller that is already waiting out its call lets a close overlap that call
  (`SecondCancelOverlaps`). Calls stay exclusive along a run if and only if no second cancel comes
  while the call still runs (`ExclusiveExact`).
- Zigzag is undone exactly on signed 64-bit values (`ZigzagExact`), and a written varint is read
  back exactly below 2^70 (`VarintExact`).
- Apicurio sources are visited by key but stored by name, so a second name for an artifact is lost
  (`SecondNameIsLost`). When everything needed is known, they hold what every name means, whatever
  the artifacts contain, if and only if names and keys correspond one to one
  (`NamedSources.FaithfulExact`).
- Confluent resources are visited by name, so a second version under one name is lost
  (`SecondVersionIsLost`). When everything met is known, they hold what every reference means,
  whatever the schemas contain, if and only if no name is needed for two schemas
  (`FaithfulByNameExact`).
- A message without a package hides one of the same relative name (`RelativeNameIsShadowed`). A name
  relative to its package finds its message if and only if there is no package, or it is the root's
  and no message of the pool has the relative name as its full name (`RelativeNameFinds`).

## Model

| member | source | states |
|---|---|---|
| DescriptorPool.PoolBuilder.AddDescriptor | kaskade/schemas/protobuf.py:37-61 | the recursion over the `added` and `visiting` sets and the pool computes the specification `InsertFile`, failures included |
| DescriptorPool.PoolBuilder.AddDefault | kaskade/schemas/protobuf.py:64-74 | the recursion over bundled files computes the specification `InsertBundled` |
| DescriptorPool.InsertFileReports | kaskade/schemas/protobuf.py:46-47 | whatever the bundle imports, a cycle or a missing name is reported only if the files reached have it |
| DescriptorPool.BundledIsAdded | kaskade/schemas/protobuf.py:64-74 | a bundled file is always added, together with its imports |
| DescriptorPool.CyclicExact | kaskade/schemas/protobuf.py:46-47 | when all files are known and acceptable and no bundled file within reach imports a given name, the cycle error is raised if and only if the root reaches a cycle |
| PoolClashes.BuildExact | kaskade/schemas/protobuf.py:24-74 | a pool is built if and only if no cycle is reachable and every reachable file is known and acceptable, and then lists exactly the reachable files, each once and after its imports, unless a bundled file within reach imports a given name without leading back to the root |
| PoolClashes.BuildAlwaysExact | kaskade/schemas/protobuf.py:50-57 | all that holds for every way the given files can import each other if and only if every bundled file that imports a given name leads back to the root |
| PoolClashes.NoClashExact | kaskade/schemas/protobuf.py:46-57 | cycles are reported exactly for every way the given files can import each other if and only if no bundled file imports a given name |
| PoolClashes.RootClashFails | kaskade/schemas/protobuf.py:56-59 | if all clashes within reach lead back to the root, meeting one closes a cycle and the pool is refused |
| PoolClashes.ClashHidesCycle | kaskade/schemas/protobuf.py:50-55 | concrete descriptors with a reachable cycle for which the pool is built without an error |
| PoolClashes.DescriptorPoolFor | kaskade/schemas/protobuf.py:24-34 | the builder started from empty sets reports only true cycles and missing names, and succeeds and fills the pool as `BuildExact` says |
| JsonDocuments.Loader.Document | kaskade/schemas/registration.py:94-118 | the memoised recursion computes the specification `Load`, including which error stops it |
| JsonDocuments.UnfoldingHasNoCycle | kaskade/schemas/registration.py:94-118 | a file that has a finite unfolding reaches no cycle |
| JsonDocuments.UnfoldingIsUnique | kaskade/schemas/registration.py:38-44 | the unfolding of a file is determined by the files |
| JsonDocuments.LoadJustified | kaskade/schemas/registration.py:94-118 | finished documents stay complete unfoldings, files are read once, and a reported file is really reached, and on a cycle, unreadable or outside the directory as reported |
| JsonDocuments.LoadExact | kaskade/schemas/registration.py:94-118 | loading succeeds if and only if no cycle is reachable and every reachable file can be used; the result is the full unfolding and each reachable file is read exactly once |
| JsonDocuments.CyclicExact | kaskade/schemas/registration.py:104-105 | among usable files the cycle error is raised if and only if the root reaches a cycle |
| Collectors.ContentCollector.Collect | kaskade/schemas/apicurio.py:72-79 | one level of the recursion keeps the emitted keys distinct, closed and dependencies first up to cycles |
| Collectors.CollectContents | kaskade/schemas/apicurio.py:64-79 | on any finite graph, cyclic or not, collection succeeds if and only if everything needed is known, and returns each needed content once, after its references unless they lead back to it; without cycles the order is dependencies first |
| Collectors.AcyclicOrder | kaskade/schemas/apicurio.py:71 | on acyclic graphs that order is dependencies first |
| Collectors.ResourceCollector.Collect | kaskade/schemas/json_schema.py:96-104 | one level of the recursion keeps the resources to needed documents, fetched once each |
| Collectors.CollectResources | kaskade/schemas/json_schema.py:96-104 | the resources are exactly the needed documents with their contents, on cyclic graphs too |
| Collectors.LocalReferences | kaskade/schemas/json_schema.py:107-118 | the URIs are the non-empty ones without a scheme, each at its first occurrence and in order |
| NamedSources.SourceCollector.CollectProtobuf | kaskade/schemas/apicurio.py:96-109 | one level of the recursion, with a content stored before its references: every key visited is stored under a name that needs it |
| NamedSources.SourceCollector.CollectJson | kaskade/schemas/apicurio.py:81-94 | the same with a content stored after its references |
| NamedSources.CollectSources | kaskade/schemas/apicurio.py:52-62 | collection succeeds if and only if every needed key is known, and stores each needed artifact once, next to the root |
| NamedSources.CollectResources | kaskade/schemas/apicurio.py:42-50 | the same for JSON resources |
| NamedSources.FaithfulExact | kaskade/schemas/apicurio.py:81-109 | when everything needed is known, finished collections hold what every name means, whatever the artifacts contain, if and only if names and keys of the needed references correspond and no name is taken; if they do not, there are contents for which no collection does |
| NamedSources.SomeCollection | kaskade/schemas/apicurio.py:81-109 | when everything needed is known, a finished collection exists |
| NamedSources.SecondNameIsLost | kaskade/schemas/apicurio.py:104-105 | a registry with two names for one artifact whose second name is missing from the sources |
| NamedResources.ResourceCollector.Collect | kaskade/schemas/confluent.py:103-111 | the recursion succeeds if and only if every reference it meets is known, and gives each name the key of the specification `Visit` |
| NamedResources.TourIsNeeded | kaskade/schemas/confluent.py:103-111 | only needed references are met, and each name gets a key it is needed for |
| NamedResources.TourCovers | kaskade/schemas/confluent.py:103-111 | if everything met is known, the names that the references and the chosen schemas refer to are all there |
| NamedResources.CollectResources | kaskade/schemas/confluent.py:84-111 | collection succeeds if and only if every reference it meets is known, which is everything needed when no name is needed for two schemas; each name then holds the content of one key it is needed for |
| NamedResources.FaithfulByNameExact | kaskade/schemas/confluent.py:103-111 | when everything met is known, finished collections hold what every reference means, whatever the schemas contain, if and only if no name is needed for two schemas; if one is, there are contents for which no resources do |
| NamedResources.SameVisit | kaskade/schemas/confluent.py:103-111 | what a collection meets and chooses does not depend on the contents |
| NamedResources.SecondVersionIsLost | kaskade/schemas/confluent.py:105-106 | a registry with two versions under one name: collection succeeds, although the second version is lost and references an unknown schema |
| NamedContents.ContentCollector.Collect | kaskade/schemas/confluent.py:94-101 | the recursion appends the contents of the names in the order in which `Visit` finishes them |
| NamedContents.TourOrdered | kaskade/schemas/confluent.py:95 | names are finished once each, after the names their schemas reference, unless those lead back to them |
| NamedContents.CollectContents | kaskade/schemas/confluent.py:84-101 | collection succeeds if and only if every reference it meets is known; it returns one content for each name, references first except around a cycle |
| Registration.Resolver.Register | kaskade/serializers/registry.py:288-314 | a remembered schema sends nothing; otherwise only documents below it are sent first, and the last request stores it or is the one that failed |
| Registration.Resolver.Send | kaskade/serializers/registry.py:301-314 | one request is logged with its citations; exactly the ID the answer names and the version it names, or the one looked up, are returned and remembered |
| Registration.Resolver.RegisterAll | kaskade/serializers/registry.py:262-272 | over any run of registrations the log stays sound and repeated pairs get the same version |
| Registration.CitationsAreAnswers | kaskade/serializers/registry.py:293-300 | every citation carries its reference's name and the version that the answer to an earlier request for that reference told |
| Registration.MemoIsAnswered | kaskade/serializers/registry.py:305-313 | a remembered schema has the ID and the version told by an answer for it |
| Registration.SoundAfterSending | kaskade/serializers/registry.py:290-304 | a request for a schema that is not stored yet, citing the versions assigned to its references, keeps the log sound |
| Registration.EverythingBelowIsStoredFirst | kaskade/serializers/registry.py:397-410 | every document below a sent one, at any depth, was stored by an earlier request under its reference name |
| Registration.MemoStays | kaskade/serializers/registry.py:290-292 | the version remembered for a schema never changes, whatever requests follow |
| Refresh.RefreshCoordinator.Request | kaskade/refresh.py:21-28 | the new coordinator and the started generation, if any |
| Refresh.RefreshCoordinator.Complete | kaskade/refresh.py:33-37 | only the current generation completes |
| Refresh.RefreshCoordinator.TakePending | kaskade/refresh.py:39-43 | a pending request is taken only when idle |
| Refresh.ListTopics.RequestRefresh | kaskade/admin/topics.py:208-211 | the new state of the whole list, with the worker it starts |
| Refresh.ListTopics.CompleteRefresh | kaskade/admin/topics.py:287-297 | the new state of the whole list, with the callback it queues |
| Refresh.ListTopics.FinishMutation | kaskade/admin/topics.py:456-465 | the new state of the whole list, with the timer or callback it leaves |
| Refresh.IdleStarts | kaskade/refresh.py:21-28 | whoever asks an idle list, a periodic timer included, starts the next generation and its worker |
| Refresh.BusyRefuses | kaskade/refresh.py:22-25 | a busy list forgets a periodic request and leaves any other pending |
| Refresh.FinishServes | kaskade/admin/topics.py:287-297 | a finishing worker is the current one; a mounted list then queues a pending request unless a mutation runs |
| Refresh.MutationFinishes | kaskade/admin/topics.py:456-465 | a mutation that changed something replaces a pending request by a refresh of its own; another one queues it unless a refresh runs |
| Refresh.SafeRun | kaskade/refresh.py:21-52 | in every run at most one worker runs, generations complete one at a time in order, the flag is never left set, and a mounted list owes no refused request that nothing will serve |
| Refresh.SafeStep | kaskade/refresh.py:21-28 | a generation starts only from an idle coordinator with the mutation flag clear, and is the next number |
| Refresh.AlwaysSafe | kaskade/admin/topics.py:287-297 | all this from the mounted list on; when nothing is active, queued or timed, no request is owed |
| Refresh.WorkersAreCurrent | kaskade/admin/topics.py:245-265 | every running worker is the current generation's |
| Refresh.OwedIsServed | kaskade/admin/topics.py:287-297 | however the pending work is scheduled, a refused request leads to a later generation within a bounded number of steps that can always go on |
| Refresh.OverlappingMutationsUnlock | kaskade/refresh.py:45-49 | a run with two mutations in which a refresh starts while one still runs |
| Refresh.FlagIsExact | kaskade/refresh.py:45-49 | in every state of a run the flag says whether a mutation runs if and only if every mutation that finishes is the only one |
| OperationLock.ExclusiveExact | kaskade/concurrency.py:13-26 | in every state of a run a call running in a thread belongs to the caller that holds the lock, so that no two calls overlap, if and only if no second cancel reaches a caller whose call still runs |
| OperationLock.CancelExact | kaskade/concurrency.py:19-26 | what a cancel does to a caller in the queue, awaiting a call, or waiting an earlier cancel out |
| OperationLock.CallReturns | kaskade/concurrency.py:19-21 | a call that returns leaves its caller as it was, holding the lock |
| OperationLock.CancelledCallDrains | kaskade/concurrency.py:22-26 | a cancelled call keeps the lock until it returns, and then the lock is free |
| OperationLock.LockComesFree | kaskade/consumer_service.py:229-235 | an arriving caller gets the free lock and leaves it free |
| OperationLock.CloseRunsAlone | kaskade/consumer_service.py:225-235 | without such a second cancel, no other caller has a call running or holds the lock while the close call runs |
| OperationLock.SecondCancelOverlaps | kaskade/concurrency.py:16-17 | a run with a second cancel in which a close runs during a consume call |
| OperationLock.AllFinish | kaskade/concurrency.py:19-26 | once no new calls start, a run without cancels has a bounded length and can go on until all callers are done, in whatever order threads and callers run |
| Consumer.ConsumerService.Consume | kaskade/consumer_service.py:237-295 | an error-free call returns exactly the matching records among the messages it polled, in order and at most a page; a short page means enough silent or unassigned polls in a row, and a failed call has a reason; the call terminates |
| Consumer.RecordsFromBatch | kaskade/consumer_service.py:297-317 | the matching records of the scanned part of a batch, cut short only once the limit is reached or by a failed message |
| Consumer.ConsumerService.Browse | kaskade/consumer_service.py:229-295 | over any number of calls, failing ones included, the pages concatenate to the filter of the polled messages without exactly those that the failed calls polled |
| Consumer.MatchingConcat | kaskade/consumer_service.py:378-391 | filtering a log in chunks is filtering it whole |
| Consumer.MatchingExact | kaskade/consumer_service.py:378-391 | filtering delivers exactly the good records of the wanted partition whose key, value and some header contain the texts asked for, each once and in order |
| LruCaches.LruCache.Get | kaskade/cache.py:21-25 | the value found, and the entries with that key moved to the end |
| LruCaches.LruCache.Put | kaskade/cache.py:27-31 | the entries with the key at the end, without the oldest ones beyond capacity |
| LruCaches.GetKeepsAll | kaskade/cache.py:21-25 | reading changes the value found under no key |
| LruCaches.PutContents | kaskade/cache.py:27-31 | after a write its value is found, and nothing is lost but the oldest entry of a full cache to a new key |
| LruCaches.FoundExact | kaskade/cache.py:21-34 | after any run a key is found with a value if and only if it was last written with it, not removed since, and the cache never since held `capacity` other keys used later |
| LruCaches.FewOthersKeep | kaskade/cache.py:30-31 | a key stays as long as fewer than `capacity` others are used after it was written |
| LruCaches.RemovalMakesRoom | kaskade/cache.py:33-34 | a run in which a key stays although `capacity` others were used, because one was removed |
| LruCaches.InclusionRun | kaskade/cache.py:21-34 | after any run a smaller cache holds a recency-ordered part of a larger one's entries with the same values, and neither exceeds its capacity |
| LruCaches.HitsGrowWithCapacity | kaskade/cache.py:21-34 | a larger cache hits whatever a smaller one hits, with the same value |
| LruCaches.OrderedByUse | kaskade/cache.py:21-31 | after any run the entries stand in the order of their last use |
| LruCaches.EvictedIsLeastRecent | kaskade/cache.py:30-31 | an evicted entry was used before every entry that is kept, and eviction happens only at capacity |
| ApicurioClient.ClientCache.Cached | kaskade/apicurio.py:412-423 | the answer of the time-to-live layer and the entries it leaves |
| ApicurioClient.CachedIsLastStored | kaskade/apicurio.py:412-426 | whatever is cached for a key after any run is the last value stored for it |
| ApicurioClient.HitIsFresh | kaskade/apicurio.py:412-423 | a hit is the last value stored for the key and younger than the check period |
| ApicurioClient.HitExact | kaskade/apicurio.py:412-423 | a lookup hits if and only if the entry is there and was stored less than the period ago |
| ApicurioClient.FreshIsHit | kaskade/apicurio.py:412-426 | a stored value is a hit until its period has passed, unless it is stored again or `capacity` other keys come up |
| ApicurioClient.Request | kaskade/apicurio.py:456-489 | bounded calls, sleeps and token refreshes; every earlier reply deserved another try; the last one decides, and only a success is returned |
| Wire.WriteVarint | kaskade/serializers/protobuf.py:83-92 | the loop writes the varint of the value |
| Wire.ScanVarint | kaskade/deserializers/protobuf.py:29-40 | the loop computes the specification `ReadVarint`, errors included |
| Wire.VarintRoundTrip | kaskade/deserializers/protobuf.py:29-40 | a written value is read back with its exact end offset whatever surrounds it if it fits the byte limit, and refused otherwise |
| Wire.VarintExact | kaskade/deserializers/protobuf.py:29-40 | written values are read back exactly below 2^70, and only values below 2^70 are read |
| Wire.ReadExact | kaskade/deserializers/protobuf.py:29-40 | exactly the varints of at most ten bytes are read, minimal or not, with their value and end; the errors tell truncated from overlong ones |
| Wire.VarintIsShortest | kaskade/serializers/protobuf.py:83-92 | no shorter bytes decode to a value, and no other bytes of the same length |
| Wire.ZigzagExact | kaskade/serializers/protobuf.py:79-80 | zigzag is undone if and only if the value is a signed 64-bit integer |
| Wire.ZigzagSigned | kaskade/serializers/protobuf.py:79-80 | natural numbers become the even numbers and negative ones the odd |
| Framing.ScanMessageIndexes | kaskade/deserializers/protobuf.py:48-62 | the loop computes the specification `ParseMessageIndexes`, errors included |
| Framing.MessageIndexesRoundTrip | kaskade/serializers/protobuf.py:62-67 | up to 100000 indexes below 2^63 come back with the untouched payload |
| Framing.IndexesWritten | kaskade/serializers/protobuf.py:62-67 | the first message is one zero byte, any other path its length and its indexes as doubled varints |
| Framing.BadLengthRefused | kaskade/deserializers/protobuf.py:51-52 | a length below 0 or above 100000 is refused |
| Framing.NegativeIndexRefused | kaskade/deserializers/protobuf.py:60-61 | a negative index is refused |
| Framing.TypeRefRoundTrip | kaskade/serializers/protobuf.py:70-78 | a type reference gives back its encoded name and the untouched payload |
| Framing.TypeRefExact | kaskade/deserializers/protobuf.py:81-102 | a payload without a type reference comes back whole; one with it is exactly the size, tag 10, the name's length, the name and the rest |
| Framing.TypeRefAccepted | kaskade/deserializers/protobuf.py:88-100 | every payload of that form is read so, however its numbers are written |
| Framing.TypeRefWritten | kaskade/serializers/protobuf.py:70-76 | the bytes of a short type reference |
| Framing.HeaderRoundTrip | kaskade/deserializers/base.py:171-174 | a schema ID below 2^32 is read back from the header, after a zero magic byte |
| Framing.HighByteFirst | kaskade/deserializers/base.py:171-174 | the header holds the ID in network byte order |
| Framing.FramesExact | kaskade/deserializers/confluent.py:66-83 | fewer than six bytes or another magic byte are refused by both consumers, and nothing else but unreadable indexes |
| Framing.ConfluentRoundTrip | kaskade/deserializers/confluent.py:66-83 | a framed Confluent record is split into the same ID, indexes and payload, even an empty one |
| Framing.ApicurioRoundTrip | kaskade/deserializers/apicurio.py:49-62 | a framed Apicurio record is split into the same ID, name and payload, even an empty one |
| MessagePaths.ResolveName | kaskade/deserializers/protobuf.py:65-78 | the loop computes the specification `MessageName` |
| MessagePaths.FindIndexes | kaskade/serializers/protobuf.py:44-59 | the loop computes the specification `MessageIndexes` |
| MessagePaths.NameThenIndexes | kaskade/serializers/protobuf.py:44-59 | the message at an index path is found again at exactly those indexes, with and without a package |
| MessagePaths.IndexesThenName | kaskade/deserializers/protobuf.py:65-78 | the indexes found for a message lead back to its full name |
| MessagePaths.ConfluentEndToEnd | kaskade/deserializers/confluent.py:107-112 | the consumer of a framed record finds in its pool the message the producer encoded, with its schema ID and its payload |
| MessagePaths.ApicurioEndToEnd | kaskade/deserializers/apicurio.py:87-95 | the consumer of a framed record finds the message the producer encoded, with its schema ID and its payload, if and only if the relative name finds it |
| MessagePaths.WithoutTypeRef | kaskade/deserializers/apicurio.py:90-92 | a record without a type reference is the schema's first message, with its whole payload |
| MessagePaths.RelativeNameFinds | kaskade/schemas/protobuf.py:113-122 | the relative name finds its message if and only if there is no package, or it is the root's and no message has the relative name as its full name |
| MessagePaths.RelativeNameIsShadowed | kaskade/schemas/protobuf.py:113-122 | a pool in which the relative name finds another message |
| ByteText.DecodeEscaped | kaskade/serializers/primitives.py:149-160 | moving from match to match reads the text as the left-to-right specification `Unescape` does, or refuses it |
| ByteText.GapIsPlain | kaskade/serializers/primitives.py:162-168 | text between two escapes is read character by character or refused as a whole |
| ByteText.EscapeRoundTrip | kaskade/models.py:22-31 | escaped text decodes to the bytes it shows |
| ByteText.EscapeExact | kaskade/models.py:22-31 | printable ASCII but the backslash stands for itself, the backslash is doubled, any other byte is an escape with its two digits |
| ByteText.PlainDecodes | kaskade/serializers/primitives.py:162-168 | printable ASCII without a backslash decodes to itself |
| ByteText.UnprintableRefused | kaskade/serializers/primitives.py:162-168 | a character outside printable ASCII is refused wherever it stands |
| ByteText.BackslashExact | kaskade/serializers/primitives.py:149-160 | a backslash is refused unless it starts one of the two kinds of escapes |
| ByteText.EscapeNormalises | kaskade/serializers/primitives.py:149-160 | rendering decoded text again never lengthens it and changes it exactly when it was not canonical |
| ByteText.HexRoundTrip | kaskade/serializers/primitives.py:129-134 | hexadecimal text decodes to the bytes it shows |
| ByteText.ToHexAt | kaskade/models.py:38-39 | each byte is shown at its place as its two digits |
| ByteText.HexAccepted | kaskade/serializers/primitives.py:129-134 | only pairs of digits are accepted, in either case and with white space between them; compacted, they are what is shown |
| ByteText.HexByteRead | kaskade/serializers/primitives.py:129-134 | a pair is read in either case, after white space and before more pairs |
| ByteText.Base64RoundTrip | kaskade/serializers/primitives.py:122-127 | Base64 text decodes to the bytes it shows |
| ByteText.ToBase64At | kaskade/models.py:36-37 | every three bytes are shown at their place by four digits of the standard alphabet, missing bytes as padding |
| ByteText.GroupExact | kaskade/models.py:36-37 | the four digits of a group are its 24-bit number |
| ByteText.GroupsAccepted | kaskade/serializers/primitives.py:122-127 | only digits in groups of four are accepted, padding at most twice and at the end; unpadded text is what is shown |
| NumberLists.WriteRead | kaskade/serializers/primitives.py:136-140 | the JSON text of an integer list is read back, whatever white space it is laid out with |
| NumberLists.DecimalExact | kaskade/models.py:40-41 | numbers are written in base 10, high digits first |
| NumberLists.WriteExact | kaskade/models.py:40-41 | the numbers stand in order in brackets, with commas between them |
| ByteText.NumbersRoundTrip | kaskade/serializers/primitives.py:136-147 | a number list decodes to the bytes it shows, however it is laid out |
| ByteText.NumbersExact | kaskade/serializers/primitives.py:136-147 | blank text is no bytes, and a number outside 0 to 255 is refused |
| ByteText.ShownBytesComeBack | kaskade/models.py:34-43 | in each of the four encodings the producer decodes what the consumer shows |
| Stretch.DataTable.Restretch | kaskade/widgets.py:346-371 | each column gets its minimum and its share; with a stretch factor somewhere, row labels, widths and padding fill the region if and only if the minimums fit, and without room to spare each column has its minimum |
| Stretch.ShareIsProportional | kaskade/widgets.py:366-371 | a share is the exact proportion of the extra width rounded down or up, and zero without a stretch factor |
| Stretch.ShareIsWithinOne | kaskade/widgets.py:366-371 | the share times the total stretch differs from the factor times the extra width by less than the total |
| Stretch.WidthsFill | kaskade/widgets.py:364-371 | all columns together get their minimums and the whole extra width |
| Stretch.EqualStretchesShareEqually | kaskade/widgets.py:366-371 | columns with the same factor differ by at most one cell |
| TopicMetrics.ApplyPartitionOffsets | kaskade/topic_service.py:225-248 | every topic changes as the specification of the offset stage says |
| TopicMetrics.PreserveCompletedMetrics | kaskade/admin/topics.py:307-327 | every refreshed topic keeps the ready metrics of the previous one as the specification says |
| TopicMetrics.AlwaysSound | kaskade/admin/topics.py:307-327 | in every run of stages with partial failures, ready records come from one complete offset load and ready groups imply ready records |
| TopicMetrics.ReadyIsNeverDemoted | kaskade/topic_service.py:436-450 | a ready metric stays ready over any run while the partitions stay the same |
| TopicMetrics.OffsetsStage | kaskade/topic_service.py:244-254 | a complete load is shown at once, over ready offsets too; an incomplete one changes no offsets |
| TopicMetrics.GroupsStage | kaskade/topic_service.py:419-450 | groups are shown with ready records, and a failed request leaves them as they were |
| TopicMetrics.MetadataStage | kaskade/admin/topics.py:307-327 | a topic read again keeps its ready offsets and groups if and only if its partitions are the same |
| TopicMetrics.ShownExact | kaskade/admin/topics.py:307-327 | in every run records are shown if and only if a load was complete since the partitions changed, with the offsets of the latest such load, and groups likewise |
| TopicMetrics.LagExact | kaskade/models.py:130-135 | the lag of a group partition within, beyond and without a usable offset |
| GroupLag.ApplyGroups | kaskade/topic_service.py:419-434 | the topics after an application; without errors each topic's lag is the sum over the counting snapshot entries |
| GroupLag.CommittedByTopic | kaskade/topic_service.py:460-472 | the entries by topic are exactly those with an offset for a listed topic, in order |
| GroupLag.MappedExact | kaskade/topic_service.py:504-522 | the group partitions are those of exactly the entries with an offset other than -1001 for a partition of the topic, in order, with that partition's ends |
| GroupLag.GroupsExact | kaskade/topic_service.py:427-432 | the groups are exactly the described ones that committed to the topic, in order |
| GroupLag.LagIsConserved | kaskade/models.py:233-234 | regrouping keeps lag: a topic's lag is that of exactly the described groups' entries for its partitions, each counted once |

## Left out

- Textual screens, bindings, themes and command-line options: user interface and shallow checks.
- Kafka, HTTP, TLS and OAuth calls: represented by logs, registries, reply sequences and choices.
- `_avro_document` and Avro content: driven by exceptions and conversions of the fastavro library.
- `_protobuf_document`: the memoised walk of `_json_document` without its cycle check, over imports that the compiler has already found acyclic.
- Protobuf, JSON and JSON Schema parsing (except integer lists), URL joining and UTF-8: libraries; reference graphs, descriptor trees and decodability are given, and contents that are not JSON are not modelled.
- PoolClashes.BuildExact: says nothing about the pool if a bundled file within reach imports a given name without leading back to the root; the order of imports then decides which version is added.
- NamedResources.CollectResources: the third Confluent collector (kaskade/schemas/confluent.py:113-127) visits names in the same way, the root's included, and is not modelled again.
- Registration.Resolver.Register: the `normalize` flag and the kind of registry error are not modelled; both registries are one, with a constant group for Confluent.
- Refresh.SafeRun: after the list is unmounted, nothing is promised about pending requests, as the source skips them.
- OperationLock.ExclusiveExact: the value a call returns and the log line of a failed one are not modelled.
- Consumer.ConsumerService.Consume: deserialization, timestamps and time measurements are not modelled; the retry limits are given as numbers.
- ApicurioClient.Request: token expiry and failing token requests are not modelled.
- ByteText.Base64RoundTrip: the decoder accepts padded groups only at the end, as the RFC says; the library's tolerance for other padding is not modelled.
- TopicMetrics.ApplyPartitionOffsets: partitions are values inside a topic, so sharing of partition objects is not modelled; group members and coordinators are left out of groups.
- Metric formatting, floats, timestamps, producer delivery, sandbox and scripts: library rounding or tooling.
