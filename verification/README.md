# Icecreme in Dafny

A model of the algorithms and protocols around the icecreme virtual machine, a C backend for the Creme Scheme
implementation, with proofs of what they promise. Each module follows one part of the system:

- **Graphs on the heap.** SchemeHeap is a finite arena of mutable pairs and vectors, possibly cyclic. On it stand
  `equal?` (Equality, EqualTermination), its hash (Hashing, Word64), `list?` (ListPredicate), and the two passes of
  `write-shared` (Sharing, Labelling, WriteShared) with the text they produce (LabelledDatum, DatumText). The ICE
  serializer and the loader that ties cycles back together are IceFormat, IceLoader, IceRoundTrip, IceDatum and
  IceReader.
- **The hash table** with orphaned slots and compaction: HashTableSpec is an ordered association list and the
  table as a value, HashTable the arrays and counters in place.
- **Protocols.** Mailbox is the bounded mailbox with two condition variables; Registry the per-node actor registry
  over whole runs, and ActorRuntime its lists in place; Pool the growable worker pool of the HTTP listener, and
  FdSet its descriptor set.
- **Texts.** Json, Csv and Wire are the readers and writers as functions on the remaining text. JsonTokens and
  JsonDocument, CsvDocument, WireTokens and WireDocument give the grammars of the texts that are accepted and what each
  text stands for, and prove that the readers accept exactly those and answer exactly that; JsonRoundTrip, Csv, Wire
  and WireWriting hold the round trips and the form of what is written. JsonCodec, CsvCodec and WireCodec are the cursor and buffer code, proved against the functions.
  SchemeValue holds the values they exchange, Decimal the decimal texts and little-endian words.
- **Arithmetic.** BigDecimal, GcdLcm and CivilDate.
- Util, Products and TextReading hold facts shared by several modules.

Recursive descents and pure formulas are functions and lemmas; code that works by changing state is a class or a
method with loops, proved against those functions. Input and output, clocks, sockets and foreign libraries are
parameters or left out. Where the code and its documentation disagree, the model follows the code:

- `equal?` does not terminate on cycles made of vectors only (`EqualTermination`), and its hash tells some equal
  circular lists apart (`Hashing.CircularListsHashApart`).
- The ICE serializer writes data that the loader's caps refuse (`IceDatum.LiteralRoundTrip`,
  `IceDatum.LongListIsRefused`).
- `register!` accepts remote references and references to other nodes, and files them by id, so `whereis` can answer
  a different actor, at once or later (`Registry.RegisterAcrossNodesFindsAnother`, `Registry.RegisteredForAnotherIff`).
- A leaving pool worker can close another worker's listener when the kernel reuses a descriptor number, and
  `mux-close!` can miss a listener that is just being added (`Pool.NumberReuseClosesAnotherListener`,
  `Pool.MuxCloseMissesAListener`). `mux-close!` needs the handle that `mux-listen!` returns only once the main worker's
  loop has ended.
- Three `int` computations overflow on reachable input: the scales of BigDecimal products and quotients
  (`BigDecimal.SquaringOverflows`, `BigDecimal.DivIsNearest`), the lengths of their texts (`BigDecimal.BdToString`),
  and the load test of a hash table with 2^30 live entries (`HashTableSpec.RunBreaksOffOnlyWhenLarge`).
- `json-read` accepts more numbers than RFC 8259: zeros in front, and empty runs of digits (`JsonTokens.NumberRead`).
- Not every message survives the wire, and not every table survives CSV; the exact conditions are proved
  (`Wire.CharArrivesIff`, `WireTokens.SymbolArrivesIff`, `Csv.RoundTripIff` and their neighbours).

To verify everything: `dafny verify dfyconfig.toml`.

## Model

| member | source | states |
|---|---|---|
| Equality.EqualIffBisimilar | icecreme/builtins.c:2581-2630 | on every heap whose cycles pass through a pair, equal? is true exactly when no car/cdr/index path tells the two values apart |
| Equality.CremeEqual | icecreme/builtins.c:2604-2630 | the recursive comparison with its growing ancestor stack terminates on such a heap and answers exactly that |
| Equality.CremeEqualRec | icecreme/builtins.c:2604-2625 | each nested call answers the comparison under the ancestors on the stack and leaves the stack as it found it |
| Equality.EqualSeen.Push | icecreme/builtins.c:2587-2602 | a combination already on the stack is not pushed again; a fresh one is pushed last |
| Equality.MatchVisits | icecreme/builtins.c:2604-2625 | on a true result the visited combinations form a bisimulation around the two values |
| Equality.MismatchHasPath | icecreme/builtins.c:2604-2625 | on a false result the comparison has gone down a path that tells the two values apart |
| Equality.EqualIsAnEquivalence | icecreme/builtins.c:2627-2630 | equal? is reflexive, symmetric and transitive, circular structure included |
| EqualTermination.EqualTerminatesIffPairsBreakCycles | icecreme/builtins.c:2604-2625 | equal? answers on all values of a heap if and only if every cycle passes through a pair; the claim of icecreme/README.md:1061 that it terminates on circular structure fails on cycles made of vectors only |
| EqualTermination.SomeDepthSuffices | icecreme/builtins.c:2604-2625 | without a vector-only cycle some recursion depth suffices, and the answer is the one Equality describes |
| EqualTermination.CycleNeverAnswers | icecreme/builtins.c:2604-2625 | a vector on a vector-only cycle compared with itself exhausts any recursion depth |
| EqualTermination.SelfVectorNeverAnswers | icecreme/builtins.c:2604-2625 | the smallest such heap: equal? of a vector that holds itself never answers |
| SchemeHeap.RankedIffNoVectorCycle | icecreme/builtins.c:2604-2625 | the heaps on which the recursion terminates are exactly those whose vectors can be ranked so that nesting descends |
| Hashing.EqualOnAcyclicIsStructural | icecreme/builtins.c:2604-2630 | for acyclic values the ancestor stack never fires: equal? is structural equality of the unfolded trees |
| Hashing.HashIsTreeHash | icecreme/builtins.c:2686-2746 | for acyclic values the hash is a function of the unfolded tree alone, under any ancestors |
| Hashing.EqualImpliesSameHash | icecreme/builtins.c:2640-2746 | equal? values of which one is acyclic have the same hash |
| Hashing.CircularListsHashApart | icecreme/builtins.c:2640-2746 | on circular values it is not so: two equal? circular lists hash alike only in the accident that one mixed word is zero |
| Word64.ShiftBits | icecreme/builtins.c:2647-2650 | the two shifts of the mixing step, bit by bit |
| Word64.XorBit | icecreme/builtins.c:2647-2650 | exclusive or, bit by bit |
| Hashing.CombineIsInjective | icecreme/builtins.c:2640-2660 | the mixing step loses nothing: different words mixed into the same hash give different hashes |
| ListPredicate.ListP | icecreme/builtins.c:2767-2782 | list? terminates on every finite heap and answers true exactly for cdr chains that end in nil |
| ListPredicate.EndsOrMeets | icecreme/builtins.c:2773-2781 | the two pointers either run off a finite chain or meet within a bounded number of rounds |
| ListPredicate.RepeatMeansEndless | icecreme/builtins.c:2780-2780 | when they meet, the chain never ends |
| Sharing.MarkCountsIncomingEdges | icecreme/builtins.c:2437-2460 | pass 1 enters exactly the objects reachable from the root, each once, and counts for each its incoming edges, the root counting as one |
| Sharing.MarkSpec | icecreme/builtins.c:2437-2460 | pass 1 from any table on: what it enters is closed under fields, led to by what it was called with, and counted by edges |
| Labelling.LabelFollowsMark | icecreme/builtins.c:2462-2521 | pass 2 enters the same objects in the same order as pass 1 |
| Labelling.LabelCorrect | icecreme/builtins.c:2462-2521 | what pass 2 writes from any point on describes the value, shows every new object once and numbers its labels on |
| Labelling.LabelledTextIsFaithful | icecreme/builtins.c:2411-2521 | the output describes the value; shows every reachable object once; defines labels 0, 1, 2, ... in order, each before its uses; and labels exactly the objects with two or more incoming edges |
| LabelledDatum.SameTextSameGraph | icecreme/builtins.c:2462-2521 | two values described by the same well-scoped text that shows no object twice are the same graph |
| LabelledDatum.SameGraphIffIsomorphic | icecreme/builtins.c:2462-2521 | being the same graph along all paths, with the same sharing, is the same as having an isomorphism |
| LabelledDatum.NumberedIsScoped | icecreme/builtins.c:2471-2472 | labels numbered in definition order are each used only after their definition |
| DatumText.ReadPrint | icecreme/builtins.c:2474-2512 | the list notation with flattened spines, dotted tails and labels is read back as the datum it was printed from |
| WriteShared.ShareTable.ShareMark | icecreme/builtins.c:2437-2460 | the entries of the share table are those of pass 1, with their counts |
| WriteShared.ShareTable.Lookup | icecreme/builtins.c:2430-2435 | the entry of an object, or none |
| WriteShared.ShareTable.WriteValueShared | icecreme/builtins.c:2462-2521 | writes exactly the text of pass 2 and leaves the labels it has assigned |
| WriteShared.ShareTable.WriteLabel | icecreme/builtins.c:2465-2473 | a repeated object gets its reference if printed, else the next label and its definition |
| WriteShared.ShareTable.WritePair | icecreme/builtins.c:2475-2505 | a list is written with its spine flat |
| WriteShared.ShareTable.WriteTail | icecreme/builtins.c:2478-2504 | a labelled or improper tail is written after a dot, any other continues the list |
| WriteShared.ShareTable.WriteVector | icecreme/builtins.c:2506-2512 | the items of a vector with single spaces |
| WriteShared.WriteSharedDatum | icecreme/builtins.c:2523-2540 | the whole of write-shared: its tokens are the labelled text, and reading them gives that text back |
| IceDatum.LiteralRoundTrip | icecreme/loader.c:368-534 | a datum serialized with labels loads if and only if it is within the loader caps (4000 deep, 256 labels, counts to 2097152), and is then the same graph, shared and circular exactly where it was; the serializer has no such caps (src/creme/compile/chunk_serializer.cr:379-455) |
| IceDatum.LongListIsRefused | icecreme/loader.c:381-389 | the serializer writes a list of n elements for every n, and the loader takes it back exactly for n below 4000 |
| IceDatum.LabelledDatumLoads | icecreme/loader.c:368-534 | any well-scoped labelled datum loads as the structure it describes, each reference being the very object its definition allocated, exactly if it is within the caps |
| IceDatum.FitsIffWithinCaps | icecreme/loader.c:302-319 | the caps met along the way are met exactly if the datum is within them as a whole |
| Decimal.HighByteLast | icecreme/loader.c:85-116 | numbers are read low byte first: the last byte counts most |
| IceRoundTrip.LoadRec | icecreme/loader.c:391-534 | loading from any state: consumes exactly the encoding, restores the depth, adds labels in order, builds what the text describes |
| IceFormat.LiteralsAreSerialisable | src/creme/compile/chunk_serializer.cr:379-455 | every fixnum, bignum and bytevector of less than 2 GB, float, character, boolean, nil, and pooled symbol and string can be serialised |
| IceLoader.Refusals | icecreme/loader.c:85-309 | truncated fields, counts below 0 or above 2097152, strings outside the pool, unknown tags and a 257th label are refused |
| IceLoader.LabelFound | icecreme/loader.c:311-319 | a reference finds the first label with its number, or none |
| IceReader.Reader.ReadDatumRec | icecreme/loader.c:381-389 | the depth counter is checked, and restored after a read |
| IceReader.Reader.ReadDatumRecImpl | icecreme/loader.c:391-420 | a reference resolves to the object of its label; a definition registers its object before its contents are read |
| IceReader.Reader.ReadTaggedDatum | icecreme/loader.c:421-534 | each tag is read as the loader specification says |
| IceReader.Reader.ReadIntoContainer | icecreme/loader.c:421-534 | a pair or vector is allocated first and patched as its fields arrive, so references inside it are to it |
| IceReader.Reader.ReadFields | icecreme/loader.c:483-500 | the fields are read and patched one after the other |
| IceReader.Reader.DatumLabelAdd | icecreme/loader.c:302-309 | at most 256 labels |
| IceReader.Reader.DatumLabelFind | icecreme/loader.c:311-319 | the first label with the number, or none |
| HashTableSpec.RunRefinesList | icecreme/hashtable.c:96-150 | after any run of sets and deletes the table holds what an ordered association list holds, in its order; counts it; is at least half live beyond 16 slots; and all compactions together scanned at most two slots per operation |
| HashTableSpec.RunCounts | icecreme/hashtable.c:96-137 | over runs: exactly when a table is compacted (at least half of sixteen or more slots dead), what that scans, and how the arrays grow (doubling from eight when full, cut to the live entries by a compaction) |
| HashTableSpec.CompactionKeepsContents | icecreme/hashtable.c:96-116 | compaction at any moment keeps the contents and their order and leaves no dead slot |
| HashTableSpec.SetRefines | icecreme/hashtable.c:122-143 | set removes an equal key and appends |
| HashTableSpec.DeleteRefines | icecreme/hashtable.c:237-256 | delete removes an equal key |
| HashTableSpec.LookupRefines | icecreme/hashtable.c:145-150 | lookup finds what the association list holds |
| HashTableSpec.ContentsCount | icecreme/hashtable.c:197-220 | the live counter is the number of live slots |
| HashTableSpec.StepKeeps | icecreme/hashtable.c:118-143 | each operation keeps the density, and pays for its scan with the dead slots it removes |
| HashTableSpec.RunBreaksOffOnlyWhenLarge | icecreme/hashtable.c:118-135 | a run breaks off by int overflow exactly when 2^30 entries or more are live as the load is tested, and by an abort only when more than 2^29 are |
| HashTableSpec.SmallRunSucceeds | icecreme/hashtable.c:118-143 | a run whose association list never exceeds 2^29 entries goes through |
| HashTable.CremeHashTable.HashTableSet | icecreme/hashtable.c:122-143 | the arrays, the index and the counters after a set are those of the specification |
| HashTable.CremeHashTable.HashTableDelete | icecreme/hashtable.c:237-256 | the same after a delete |
| HashTable.CremeHashTable.HashTableLookup | icecreme/hashtable.c:145-150 | the value of the association list, or none |
| HashTable.CremeHashTable.Compact | icecreme/hashtable.c:96-116 | two loops: copy the live slots to new arrays, point the index at them |
| HashTable.CremeHashTable.CopyLive | icecreme/hashtable.c:96-108 | the live slots fit the new arrays and come in slot order |
| HashTable.CremeHashTable.Repoint | icecreme/hashtable.c:109-113 | every key of the copy is pointed at its new slot |
| HashTable.CremeHashTable.MaybeCompact | icecreme/hashtable.c:118-120 | compacts when at least 16 slots are used and at least half of them are dead |
| HashTable.CremeHashTable.Reserve | icecreme/hashtable.c:126-135 | room for one more slot by doubling, within INT_MAX |
| HashTable.CremeHashTable.CollectLive | icecreme/hashtable.c:197-220 | keys, values and the alist come out exactly as the association list, in order |
| Mailbox.DeliversInOrder | icecreme/actor.c:92-111 | in every reachable state of any number of senders and receivers: accepted messages are the delivered ones followed by the buffered ones, at most 64 behind, each sender in its own order |
| Mailbox.NoLostWakeup | icecreme/actor.c:92-111 | while a sender sleeps, free slots are at most the woken senders, and symmetrically for receivers: nobody sleeps beside a free slot or a message that no one was woken for |
| Mailbox.RunnableHasAStep | icecreme/actor.c:92-111 | whoever is not asleep can go on: at a full or empty mailbox he goes to sleep, otherwise he wakes at least one of those who wait for what he did |
| Mailbox.NoDeadlock | icecreme/actor.c:92-111 | when senders and receivers both sleep, somebody is able to run |
| Mailbox.StepKeepsMessages | icecreme/actor.c:92-111 | every step keeps the books of accepted, delivered and buffered messages |
| Mailbox.StepKeepsSenders | icecreme/actor.c:92-111 | every step, spurious wakeups included, keeps the count of woken senders high enough |
| Mailbox.StepKeepsReceivers | icecreme/actor.c:92-111 | the same for receivers |
| Mailbox.EnqueueAppends | icecreme/actor.c:95-97 | writing at the tail of the ring appends to its contents |
| Mailbox.DequeueTakesOldest | icecreme/actor.c:105-107 | reading at the head takes the oldest message |
| Mailbox.Mailbox.Send | icecreme/actor.c:92-100 | the section under the mutex: appends, unless the ring is full |
| Mailbox.Mailbox.Receive | icecreme/actor.c:102-111 | takes the oldest message, unless the ring is empty |
| Registry.IdsAreNeverReused | icecreme/actor.c:294-310 | in every reachable state, in one node an id never means two actors, not even at different times, and lies below the counter |
| Registry.ListedExactlyAtHome | icecreme/actor.c:331-372 | a node lists exactly its own running actors, each once |
| Registry.LookupIsUnambiguous | icecreme/actor.c:279-292 | a name has at most one entry in a node, and whereis finds an actor exactly when that entry bears its id |
| Registry.RegisterThenWhereis | icecreme/actor.c:1529-1571 | right after register!, whereis answers an actor exactly when it runs in the caller node under the id of the reference |
| Registry.RegisteredForAnotherIff | icecreme/actor.c:1529-1571 | whereis can ever come to answer anybody but the registered target exactly if the node counter has not passed the id of the target yet, or somebody else there has that id |
| Registry.OwnNodeIsSafe | icecreme/actor.c:1529-1571 | a reference to somebody who is or was in the caller node never comes to mean another |
| Registry.NobodyThenAStranger | icecreme/actor.c:294-310 | a reachable state in which a reference to another node first leads to nobody, and then to the next actor spawned |
| Registry.RegisterAcrossNodesFindsAnother | icecreme/actor.c:1529-1571 | hence a reference to an actor of another node can lead to a stranger: a reachable state in which registering actor 2 makes whereis answer actor 3 (the comment at icecreme/actor.c:440-453 says such references are refused or resolved absolutely) |
| Registry.NamesAreNeverInherited | icecreme/actor.c:516-539 | over whole runs: once whereis has answered an actor, it answers that actor or nobody until the name is registered again |
| Registry.NameLastsWhileActorStays | icecreme/actor.c:516-539 | while the actor neither exits nor moves, its name keeps leading to it |
| Registry.MoveKeepsIdsApartIff | icecreme/actor.c:331-372 | a move keeps the ids of a node apart exactly when nobody there has the id of the mover; this is why start-node moves into a fresh node |
| Registry.StepKeeps | icecreme/actor.c:583-600 | every spawn, allocation, move, registration and exit keeps the registry invariant |
| ActorRuntime.UnlinkAll | icecreme/actor.c:340-344 | the pointer-to-pointer loop drops every matching entry and keeps the order of the rest |
| ActorRuntime.ActorSystem.FindContextById | icecreme/actor.c:279-284 | the first listed actor with the id |
| ActorRuntime.ActorSystem.FindIdByName | icecreme/actor.c:287-292 | the id of the first entry for the name |
| ActorRuntime.ActorSystem.RegisterName | icecreme/actor.c:1548-1560 | replaces every entry for the name by a new one at the front |
| ActorRuntime.ActorSystem.UnregisterActor | icecreme/actor.c:516-539 | drops the actor and every name that bears its id |
| ActorRuntime.Runtime.NewActorContext | icecreme/actor.c:294-310 | a new actor takes the next id and is linked first |
| ActorRuntime.Runtime.AllocActorSystem | icecreme/actor.c:1579-1598 | start-node makes a new system with an empty registry |
| ActorRuntime.Runtime.MoveContextToSystem | icecreme/actor.c:331-372 | unlinks, relinks and raises the id counter of the new system past the mover |
| ActorRuntime.Runtime.RegisterBang | icecreme/actor.c:1529-1561 | files the reference by its id in the system of the caller |
| ActorRuntime.Runtime.LookUp | icecreme/actor.c:1563-1571 | the name gives an id, the id an actor of the same system |
| ActorRuntime.Runtime.ExitActor | icecreme/actor.c:516-539 | an exiting actor leaves the registry of its system |
| Pool.PlacesStayWithinMax | icecreme/mux.c:940-964 | in every interleaving the counter is the places held plus refused attempts still to be undone, and places held never exceed the maximum |
| Pool.FloorNeverShrinks | icecreme/mux.c:1163-1254 | over every run there are min(max, 8) permanent workers, started or still to be started, and whatever one of them takes off the counter only undoes a growth attempt of its own |
| Pool.EachGrownWorkerReleasesOnce | icecreme/mux.c:940-964 | over every run, counted by decrements of the counter: a worker gives its own place back exactly once if it is a grown one that has left, else never; all else it takes off undoes growth attempts; all it has put on is undone, handed on or still in the attempt |
| Pool.LeavesAfterThreeIdlePasses | icecreme/mux.c:1057-1079 | over every run: a grown worker has left exactly if its loop was ended from outside or its last three passes had no connections; a permanent one only if its loop was ended |
| Pool.GrowsOnBusyPass | icecreme/mux.c:940-947 | a worker starts a growth attempt exactly on a pass with four connections or more, and is refused exactly if the counter had reached the maximum |
| Pool.OnlyWorkersMoveTheCounter | icecreme/mux.c:1054-1079 | no step but those of workers changes the counter |
| Pool.EachListenerClosedAtMostOnce | icecreme/mux.c:906-925 | no listener is closed twice or lost, and no close() hits anything but an open listener, even when mux-close! races a shrink |
| Pool.LeavingClosesOwnListener | icecreme/mux.c:1057-1079 | a leaving worker closes its own listener unless it is closed already; then nothing, or, if its number is in the set again, a listener that is not its own |
| Pool.NumberReuseClosesAnotherListener | icecreme/mux.c:906-925 | that last case is reachable: after mux-close! a leaving worker closes the listener of a new worker that got the same descriptor number |
| Pool.MuxCloseMissesAListener | icecreme/mux.c:1389-1405 | a reachable state in which mux-close! leaves open the listener of a growth attempt |
| Pool.MuxCloseClosesAllIff | icecreme/mux.c:1389-1405 | mux-close! leaves nothing open exactly when no growth attempt is between its bind and its fdset_add |
| Pool.StepKeepsCount | icecreme/mux.c:940-964 | every atomic step keeps the counter equal to places held plus refused attempts |
| Pool.StepKeepsFds | icecreme/mux.c:896-925 | every step keeps the set, the open listeners and their owners consistent |
| Pool.StepKeepsFloor | icecreme/mux.c:1057-1079 | no step takes a permanent worker out of the pool |
| Pool.SwapRemoveRemoves | icecreme/mux.c:914-916 | swap-remove takes out exactly the one descriptor |
| FdSet.FdSet.Add | icecreme/mux.c:896-904 | appends, doubling the array when full |
| FdSet.FdSet.RemoveAndClose | icecreme/mux.c:912-925 | closes a descriptor only if it is still in the set, and takes it out |
| FdSet.FdSet.CloseAll | icecreme/mux.c:1397-1399 | every descriptor in the set is closed once, and the set is empty |
| Json.WriteOkIff | icecreme/json.c:410-473 | json-write accepts exactly nil, booleans, integers, strings, characters, and vectors, alists and proper lists of what it accepts |
| JsonRoundTrip.JsonRoundTrip | icecreme/json.c:137-361 | exactly the writable float-free values are written; json-read gives their normal form if they nest at most 1000 deep, and an abort otherwise (sections 4, 5 and 7 of RFC 8259) |
| JsonDocument.ReadsExactlyDocuments | icecreme/json.c:118-361 | json-read accepts exactly the texts of a grammar (values with white space between tokens, all escapes, numbers with zeros in front or empty runs of digits) that nest at most 1000 deep and hold no integer beyond 64 bits, and answers what they stand for (RFC 8259, with the differences of the code) |
| JsonDocument.DocumentRead | icecreme/json.c:118-361 | every text of the grammar is read as what it stands for, or refused |
| JsonDocument.TreeOf | icecreme/json.c:137-347 | whatever is read is a text of the grammar |
| JsonDocument.SpacesDoNotMatter | icecreme/json.c:118-124 | a text with white space between its tokens reads as the one without it |
| JsonDocument.AcceptedIff | icecreme/json.c:312-322 | a text is within the limits exactly if it nests at most 1000 deep and its integers fit |
| JsonTokens.CharsRead | icecreme/json.c:137-216 | the characters of a string are read as what they stand for: the letter escapes by their table, hex digits in either case as the UTF-8 of their number |
| JsonTokens.Utf8Encodes | icecreme/json.c:194-204 | the bytes of a code point decode to it by section 3 of RFC 3629, and no fewer bytes do |
| JsonTokens.NumberRead | icecreme/json.c:218-244 | a number is read as its value if it is an integer of 64 bits, as a float text if it has a fraction or an exponent, and refused otherwise |
| JsonRoundTrip.WritesPlainly | icecreme/json.c:379-473 | what json-write writes is a text of the grammar without white space, empty objects, superfluous zeros or needless escapes, and stands for the normal form |
| JsonRoundTrip.ListsComeBack | icecreme/json.c:363-473 | a list of pairs with string keys comes back as an alist with the same keys in order, any other list as a vector |
| Json.NormIsNormal | icecreme/json.c:363-473 | the normal form is a fixed point |
| Json.WriteNorm | icecreme/json.c:410-473 | a value and its normal form are written alike |
| JsonRoundTrip.SameTextIffSameNormalForm | icecreme/json.c:410-473 | two values have the same text exactly when they have the same normal form |
| JsonRoundTrip.StringRoundTrip | icecreme/json.c:137-216 | strings come back byte for byte, whatever the bytes |
| JsonRoundTrip.NumberRoundTrip | icecreme/json.c:218-244 | every 64-bit integer comes back, delimited by what may follow a value |
| JsonCodec.JReader.Read | icecreme/json.c:349-358 | a document is one value with nothing but white space after it |
| JsonCodec.JReader.ParseValue | icecreme/json.c:316-347 | the recursive descent with its cursor reads what the grammar says, and restores its depth count |
| JsonCodec.JReader.ParseArray | icecreme/json.c:281-310 | elements, commas and the closing bracket |
| JsonCodec.JReader.ParseObject | icecreme/json.c:246-279 | entries in source order as an alist; the empty object is nil |
| JsonCodec.JReader.ParseString | icecreme/json.c:137-216 | the bytes of a string, as the grammar of characters says (JsonTokens.CharsRead) |
| JsonCodec.JReader.ParseEscape | icecreme/json.c:144-207 | the switch over escapes, with the loop over hex digits and the encoding in UTF-8 (pinned by JsonTokens.ChrRead) |
| JsonCodec.JReader.ParseNumber | icecreme/json.c:218-244 | an integer in range, a float token, or an abort |
| JsonCodec.WalkList | icecreme/json.c:363-376 | one walk tells whether a list is proper and whether it is an alist |
| JsonCodec.JWriter.WriteValue | icecreme/json.c:410-473 | appends the text of the value, or refuses exactly the unwritable |
| JsonCodec.JWriter.WriteString | icecreme/json.c:379-408 | appends the escaped bytes between quotes |
| Csv.RoundTripIff | icecreme/csv.c:57-226 | in each of the three modes csv-read of csv-write gives the rows back if and only if no row is one bare empty cell and no bare cell starts with a quote or holds a separator or newline; a string comes back as its bytes, a character as its byte, a boolean as the word, an integer as its plain numeral |
| Csv.OnlyItsBytes | icecreme/csv.c:163-194 | what a cell is written as is the one text that stands for it |
| Csv.QuotedOnlyIfNeeded | icecreme/csv.c:196-224 | a cell is quoted exactly in mode all, or in the default mode if it is a string or character that holds a separator, quote or line feed |
| Csv.RfcSafeIff | icecreme/csv.c:196-224 | in the default mode the condition is: no row is one empty cell, a carriage return only in a string or character that also holds a separator, quote or line feed, no separator in a number or boolean (section 2 of RFC 4180) |
| CsvDocument.DocumentRead | icecreme/csv.c:57-132 | every text of a grammar of rows (bare, quoted and unclosed cells; rows ended by LF, CR, CR LF, the end of the text, or directly after a closing quote) is read as what its cells hold, for any separator and quote |
| CsvDocument.EveryTextIsADocument | icecreme/csv.c:57-132 | and every text is one of the grammar |
| CsvDocument.NewlinesAreAlike | icecreme/csv.c:115-127 | a text with CR or CR LF row ends reads as the one with LF |
| Csv.AllQuotedRoundTripIff | icecreme/csv.c:57-226 | with every cell quoted any rows come back under any separator but a quote or a line feed, and only under those |
| Csv.CsvRoundTrip | icecreme/csv.c:57-226 | in all three modes rows whose bare cells hold no separator, newline or leading quote come back as what they were |
| Csv.CellsRoundTrip | icecreme/csv.c:74-127 | a row is taken apart at its separators, a last empty cell included |
| Csv.QuotedRoundTrip | icecreme/csv.c:79-94 | doubled quotes come back single |
| CsvCodec.BufSrc.Read | icecreme/csv.c:264-288 | the loop over rows terminates on all bytes and gives the rows of the text |
| CsvCodec.BufSrc.Row | icecreme/csv.c:57-132 | one row parse consumes input and gives the row of the text |
| CsvCodec.BufSrc.QuotedCell | icecreme/csv.c:79-96 | a quoted cell, lenient at the end of the input |
| CsvCodec.BufSrc.BareCell | icecreme/csv.c:97-105 | a bare cell ends at the separator or a newline |
| CsvCodec.DynBuf.Row | icecreme/csv.c:204-224 | appends the cells of a row with separators, each quoted as the mode demands |
| CsvCodec.DynBuf.Write | icecreme/csv.c:324-340 | appends all rows |
| Wire.MessageRoundTrip | icecreme/actor.c:684-1036 | a message of sendable parts arrives as it was sent if it is within the caps of 256 nested lists and 256 items, and is refused otherwise |
| WireWriting.WritesPlainly | icecreme/actor.c:684-781 | what a message is written as is a datum of the grammar with single spaces, a backslash only before quotes and backslashes, and hex codes only for characters that are not printable |
| Wire.StringArrivesIff | icecreme/actor.c:851-890 | a string arrives exactly if it does not start with @ref: |
| Wire.CharArrivesIff | icecreme/actor.c:702-711 | a character arrives exactly if it is not the letter x and its code is not negative |
| WireTokens.SymbolArrivesIff | icecreme/actor.c:1006-1020 | a symbol arrives exactly if its name is one token, starts like no other datum, and is not a number token |
| WireTokens.NumberTokensIff | icecreme/actor.c:1006-1020 | the tokens that strtoll or strtod takes whole are exactly the numerals of a grammar: digits with a point and an exponent in base ten or sixteen, inf, infinity and nan in either case, behind C white space and a sign (sections 7.22.1.3 and 7.22.1.4 of ISO C11) |
| WireTokens.IntegerToken | icecreme/actor.c:1006-1012 | an integer token is read as its value, or the nearest one that 64 bits hold |
| WireTokens.NumberArrives | icecreme/actor.c:1006-1020 | a number token is read as that integer, or as a float with its text |
| WireTokens.FractionArrives | icecreme/actor.c:1013-1018 | 1.5 is read as a float |
| WireTokens.InfinityArrives | icecreme/actor.c:1013-1018 | inf is read as a float, not as a symbol |
| WireTokens.HexCodeRead | icecreme/actor.c:986-1000 | a hex character code is the number of its digits in either case, behind white space, a sign and 0x |
| WireDocument.DecodesExactlyData | icecreme/actor.c:851-1036 | a message is accepted exactly if it is white space, one datum of the grammar and anything behind it, and then means what that datum stands for |
| WireDocument.DatumRead | icecreme/actor.c:851-1020 | every datum of the grammar is read as what it stands for, at any depth: strings with backslashes before any byte, hex characters with or without their semicolon, dotted tails, records, and white space between data |
| WireDocument.DatumOf | icecreme/actor.c:851-1020 | whatever is read is a datum of the grammar |
| Wire.NanWithPayload | icecreme/actor.c:1006-1020 | a nan token with a parenthesised payload behind it is left a symbol, since strtod reads past it |
| Wire.TaggedListIsLost | icecreme/actor.c:924-953 | a list or vector that starts with the string @record never arrives as it was sent |
| Wire.ReadWrite | icecreme/actor.c:684-1020 | reading inside any text and at any depth consumes exactly what was written |
| Wire.DeliverBodyRoundTripIff | icecreme/actor.c:1235-1255 | the length-prefixed body can be taken apart again exactly when the addressee is shorter than 65536 bytes; the length comes high byte first |
| Wire.ParsedBodyRebuilds | icecreme/actor.c:1246-1255 | whatever is accepted as a body is the body of its parts |
| WireCodec.PReader.DecodeMessage | icecreme/actor.c:1027-1036 | decodes as the grammar says and leaves the depth count at zero |
| WireCodec.PReader.ReadDatum | icecreme/actor.c:964-1020 | one datum from the cursor on |
| WireCodec.PReader.ReadList | icecreme/actor.c:892-962 | a list, a dotted list or a record, with the depth count balanced |
| WireCodec.PReader.ReadParts | icecreme/actor.c:899-918 | the loop over items with its cap and its dotted tail |
| WireCodec.PReader.ReadString | icecreme/actor.c:851-890 | a string with its escapes, or a reference |
| WireCodec.WBuf.WriteDatum | icecreme/actor.c:684-781 | appends the text of the value, or refuses exactly the unsupported |
| WireCodec.WBuf.WriteList | icecreme/actor.c:718-733 | the spine of a list flat, its tail dotted |
| BigDecimal.DivIsNearest | icecreme/bigdecimal.c:263-330 | division by zero is refused; the int scales and exponent fit exactly if a.scale + 20 and 2 b.scale - a.scale + 20 do; then the quotient is off by at most half a unit at twenty digits beyond the larger scale, ties going away from zero |
| BigDecimal.OverflowingQuotient | icecreme/bigdecimal.c:271-275 | 1 divided by 10^-(2^30) overflows |
| BigDecimal.DivExactIff | icecreme/bigdecimal.c:263-330 | it is exact exactly when the true quotient terminates within those digits |
| BigDecimal.DivIsTrimmed | icecreme/bigdecimal.c:300-317 | the result has scale 0 or a last digit that is not zero |
| BigDecimal.TrimKeepsValue | icecreme/bigdecimal.c:300-317 | trimming keeps the value |
| BigDecimal.RoundDivNearest | icecreme/bigdecimal.c:282-296 | the integer rounding is to nearest, ties away from zero |
| BigDecimal.AddIsExact | icecreme/bigdecimal.c:218-248 | sum and difference are exact, at the larger scale |
| BigDecimal.MulIsExact | icecreme/bigdecimal.c:250-259 | there is a product exactly if the sum of the scales is an int, and it is exact |
| BigDecimal.SquaringOverflows | icecreme/bigdecimal.c:250-259 | 0.1 can be squared exactly thirty times |
| BigDecimal.OverflowingProduct | icecreme/bigdecimal.c:250-259 | the next square overflows, and no number with an int scale has its value |
| BigDecimal.CompareIsOrder | icecreme/bigdecimal.c:132-140 | comparison is the order of the values |
| BigDecimal.AtScaleValue | icecreme/bigdecimal.c:110-130 | aligning to a larger scale keeps the value |
| BigDecimal.TextRoundTrip | icecreme/bigdecimal.c:67-181 | parsing the printed text gives the number back, a whole number at scale 1 |
| BigDecimal.ParsesExactlyLiterals | icecreme/bigdecimal.c:62-105 | string->bigdecimal reads exactly [sign] digits [. digits] with at least one digit |
| BigDecimal.LiteralParsed | icecreme/bigdecimal.c:62-105 | such a text is read as the signed value of its digits, at the scale of the digits behind the point |
| BigDecimal.PrintsPlainLiteral | icecreme/bigdecimal.c:149-181 | the printed text is such a literal with the value of the number, without a plus sign or a superfluous zero in front |
| BigDecimal.BigDecimalDiv | icecreme/bigdecimal.c:263-330 | the step-by-step division computes the specified quotient |
| BigDecimal.BdParse | icecreme/bigdecimal.c:67-105 | the scanning parser computes the specified parse |
| BigDecimal.BdToString | icecreme/bigdecimal.c:149-181 | pads, splits and joins the digits; its int lengths overflow exactly if the text is longer than an int |
| GcdLcm.BiGcd | icecreme/builtins.c:457-482 | integers of any size, INT64_MIN included, are answered by the non-negative number whose divisors are exactly their common divisors, as a fixnum exactly if it fits one; no fixed-width step leaves its range |
| GcdLcm.BiLcm | icecreme/builtins.c:484-529 | likewise by the number whose multiples are exactly their common multiples, escalating when a product overflows |
| GcdLcm.I64Gcd | icecreme/builtins.c:440-449 | the Euclidean loop in 64 bits |
| GcdLcm.LcmFast | icecreme/builtins.c:491-505 | the 64-bit step is taken exactly when the result fits |
| GcdLcm.LcmStep | icecreme/builtins.c:512-521 | the step in arbitrary precision, up to sign |
| GcdLcm.GcdAllIsGcd | icecreme/builtins.c:457-482 | whatever divides all arguments divides the result, and conversely |
| GcdLcm.LcmAllIsLcm | icecreme/builtins.c:484-529 | the multiples of the result are exactly the common multiples of the arguments |
| GcdLcm.Bezout | icecreme/builtins.c:440-449 | the greatest common divisor is a combination of its arguments |
| CivilDate.NextDayNextNumber | icecreme/builtins.c:4577-4584 | the next date has the next day number, across month ends, leap days and centuries, in any year |
| CivilDate.EpochIsDayZero | icecreme/builtins.c:4577-4584 | 1970-01-01 is day 0 |
| CivilDate.EveryNumberIsADate | icecreme/builtins.c:4577-4584 | every day number is the number of a valid date |
| CivilDate.DaysFollowDates | icecreme/builtins.c:4577-4584 | day numbers order dates, and no two dates share one |
| CivilDate.NextSecondAddsOne | icecreme/builtins.c:4586-4589 | 1970-01-01 00:00:00 is 0, and the next second adds one, across the ends of minutes, hours and days |
| CivilDate.SecondsFollowTime | icecreme/builtins.c:4586-4589 | epoch seconds order valid date-times strictly |

## Left out

- `creme_eqv` on leaves is taken as equality of tag and contents; string identity, the garbage collector and the VM dispatch loop are not part of this model.
- `equal?` and its hash are specified on heaps whose cycles pass through a pair; on the others they do not terminate, as EqualTermination shows. Keys that are circular or are mutated while in a hash table are left out.
- The hash table takes its index map (Verstable) as a finite map over classes of equal keys.
- IceReader.Reader.ReadTaggedDatum: integers, floats as eight bytes, symbols, strings, booleans, characters, blobs, nil, pairs and vectors are read; the tags of rationals, complex numbers and builtin constants abort, being leaves that need GMP rationals and the builtin table. Chunks, string pools, the step from source text to ICE, and `mpz_set_str` on text that no serializer writes are not modelled.
- Mailbox, registry and pool are state machines over critical sections and atomic operations; pthread scheduling is any interleaving, and liveness is not claimed. A sender or receiver is one thread; a wake set is any choice that `pthread_cond_signal` allows.
- ActorRuntime.ActorSystem.UnregisterActor: the monitor entries that are unlinked along with the names are not in the model.
- ActorRuntime.Runtime.ExitActor: monitors and `<down>` delivery are not in the model.
- Remote delivery, handshakes, sockets and `stop-node!` are left out. Contexts and systems are numbered objects of one runtime, not raw pointers.
- One call of `mux-listen!` with a pool is modelled; a second one would reset the shared set and counter. Connections, TLS and HTTP parsing are left out, as is an abort inside `bind_listener` when the host stops resolving.
- Floats in JSON, CSV and wire texts are only recognised, not computed: `%.17g` and `strtod` are not part of this model, so the writers require float-free values.
- JSON, CSV and wire values are trees; circular lists, on which the writers do not terminate, are left out, and so are buffers and parsed texts beyond 2 GB.
- Wire.MessageRoundTrip: an actor reference is taken to arrive as its URI; resolving the URI (`make_ref_from_uri`) is not modelled, and record types are a set of known names whose field counts are not checked, as in the code.
- CsvDocument.DocumentRead: the separator, the quote and the two newline bytes are taken to be different bytes.
- `csv-read-headers`, `csv-write-headers` and the streaming reader and writer reuse the row functions modelled here.
- BigDecimal: `string->bigdecimal` on integers would only add an easy member; C puts no meaning on an int overflow, so it is an outcome of its own here.
- GcdLcm.BiGcd: arguments are fixnums, bignums or neither; rationals and floats are in the last class, which aborts.
- CivilDate.SecondsFollowTime: leap seconds (second 60) share the number of the next minute and are not valid date-times here; years are unbounded integers.
