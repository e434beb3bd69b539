# TalosOS, modelled and proved in Dafny

TalosOS is a small robotics middleware: C++ nodes, Python tools and a build on top
of zenoh. This project models its stateful and arithmetic cores and proves what they
are for. Classes with `modifies` clauses stand for the objects the sources update in
place, state machines for the multi-threaded protocols, recursive functions for the
meaning each of them is proved against. `dafny verify dfyconfig.toml` checks it all.

| files | what they model |
|---|---|
| `Bytes`, `Cdr`, `CdrLaws`, `CdrLayout`, `CdrCodec`, `CdrFields`, `CdrPython` | The CDR codec. `Cdr` gives the wire format as functions over a universe of schemas (bool, integers, floats as bit patterns, strings, sequences, arrays, structs) at any start offset; `CdrLaws` proves its laws and `CdrLayout` what stands where, byte by byte; `CdrCodec` refines the C++ `Writer` and `Reader` to it and `CdrPython` the Python writer, down to a whole `PointCloud2`. Alignment and constructed types follow sections 15.3.1.1 and 15.3.2 of OMG CORBA 3.0 (CDR Transfer Syntax), the header chapter 10 of DDSI-RTPS 2.2. |
| `StorageModel`, `Storage` | The chained hash table of the zenoh-c storage example: nodes with `next` and `prev` on the heap, proved equal to a finite map over every run of puts and deletes whose keys do not share a slot, and to a map of slots over every other run. |
| `ActionProtocol`, `ActionSafety`, `ActionDelivery`, `ActionDuplicates`, `ActionShutdown`, `ActionObjects` | The action server and client over a network that drops, delays, duplicates and reorders messages, as atomic steps; safety over every run; exactly what is on the wire and in a handle; exactly when a goal is accepted twice; exactly when the destructor covers everything; and the server and client objects, with their aliased flags and handle states, shown to take those steps. Goal ids are the random ids of section 4.4 of RFC 4122, version and variant bits included. |
| `FeatureScanner` | The one-pass scanner that removes disabled `#if` blocks from a generated header, against pruning a tree of conditionals. |
| `SplitGuide`, `SplitGuideTokens`, `SplitGuideGroups` | The tokenizer and the record grouper of the header splitter, and what token every text begins with. |
| `TfTree`, `TfOrder`, `TfView`, `Sorting` | The transform tree panel, for every dictionary, cyclic ones included: its walk, what it shows in which order, and the object. |
| `Octree`, `OctreeDraws` | The random octree generator, over real coordinates and any stream of draws. |
| `Splitting`, `Discovery`, `DiscoveryNames`, `DiscoveryRegistry` | Topic discovery from end to end: resolving a topic, printing a liveliness key, parsing it, the registry, its printed lines and the Python that reads them. |
| `Timer` | The background timer thread and its `Cancel`, under all interleavings. |
| `Fibonacci` | The `execute` callback of the example action server, in 32-bit arithmetic. |

## What holds only under a condition

Several properties one would like to state are false of the code as it stands. Each is
stated with its exact condition, or with a run that breaks it.

- A value reads back from its bytes if and only if no length field wraps: strings are
  shorter than 2^32-1 and sequences than 2^32 (`RoundTripExactly`). A string of 2^32-1
  bytes reads back empty (`LongStringReadsEmpty`).
- The reader does not look at the four header bytes it skips, so a body decodes as
  little-endian behind any of them (`HeaderIgnored`).
- Two different keys compare equal in the hash table when they have one length and
  share a prefix that ends in NUL (`CompareExactly`). Insert, remove and find are those
  of a finite map if and only if no other stored key compares equal and falls into the
  same bin (`MapExactly`, `LookupExactly`), and a whole run follows the finite map if and
  only if no event meets such a key (`RunRefinesMap`). Keys without a NUL always do
  (`NulFreeApart`); two keys that overwrite each other whatever the number of bins are
  given (`NulKeysOverwrite`).
- On well-nested lines the scanner prunes if and only if evaluating the tree panics, as
  the scanner then does too, or every conditional inside a removed region opens with
  `#if ` or `#ifdef` (`ScanIsPruneExactly`). Its comment does not say so, but an
  `#ifndef` there is not counted, and text that should go is kept (`UncountedIsKept`).
- A quoted `#include` always panics in the header splitter: the search for the closing
  mark finds the opening one (`QuotedIncludePanics`). It panics on nothing else but an
  include without an end and a definition of nothing (`NextExactly`).
- A liveliness key parses back if and only if no segment of the topic key is `_t` or
  `_n` and the type is not `_n` (`ParseExactly`); topic `a/_t/b` is read as topic `a` of
  type `b` (`MarkedKeyMisread`).
- The list that topic.py reads back is the list printed if and only if no name holds a
  tab, a NUL, a line break or, among the nodes, a comma, no row is one empty node or
  blank (`ListRoundTrip`, `ReadRowExactly`); a topic key with a NUL is listed under the
  part before it (`NulKeyIsCut`).
- The source of `HandleGoal` reads as if duplicates were ignored. A goal message is
  dropped if and only if some acceptance of its id is not yet over when it is looked up
  (`DuplicateExactly`), and an id is accepted twice if and only if one of its messages is
  looked up after an execution of it was over (`TwiceExactly`), which happens
  (`ExecutedTwice`).
- An accepted goal is lost if and only if its `HandleGoal` read `shared_self` before
  `Finalize` (`LostExactly`); its id stays blocked for good (`LostForever`), and such runs
  exist (`LostReachable`).
- The destructor flags and joins every execution under way, whatever happens after its
  locked block, if and only if the server was never finalized, or at that block no accepted
  goal waits for its thread, every thread not yet registered is over or lost, and every
  `HandleGoal` past the check of `shutting_down` is for a goal blocked by a lost one
  (`ShutdownExactly`).
  Both ways of failing are reachable (`RaceReachable`, `UnregisteredReachable`).
- `Timer::Cancel` is documented to stop and join. A call that finds the flag set returns
  at once, and a callback is then running or will still begin if and only if the thread
  has left its wait and not finished its callback (`SecondCancelExactly`), which happens
  (`SecondCancelDoesNotWait`).
- The Fibonacci callback overflows if and only if it reaches the 47th term (`Execute`).

## Model

| member | source | states |
|---|---|---|
| CdrLaws.RoundTripExactly | include/talosos/serialization.h:213-288 | At every start offset of every buffer, for every schema, what was written reads back as the same value with the cursor just past it, if and only if no length field wraps. |
| CdrLaws.RoundTrip | include/talosos/serialization.h:33-173 | The direction of the round trip that holds, by induction over nested structs, sequences, arrays and strings. |
| CdrLaws.Misfit | include/talosos/serialization.h:68-73 | The other direction: once a length field wraps anywhere inside, no buffer that holds the bytes decodes to the value written. |
| CdrLaws.LongStringReadsEmpty | include/talosos/serialization.h:68-73 | A string of 2^32-1 bytes is written with length field 0 and reads back empty. |
| CdrLaws.PadIs | include/talosos/serialization.h:85-89 | Padding is the source's expression and puts every integer at a multiple of its own size from the end of the header. |
| CdrLaws.UIntRoundTrip | include/talosos/serialization.h:33-53 | An aligned little-endian integer reads back wherever it was written. |
| CdrLaws.StrRoundTrip | include/talosos/serialization.h:68-73 | A string with its counted terminator reads back wherever it was written. |
| CdrLaws.SeqRoundTrip | include/talosos/serialization.h:213-229 | A vector reads back after its length field, elements padded by their absolute positions. |
| CdrLaws.PrefixSafety | include/talosos/serialization.h:151-173 | Any strict prefix of a serialization fails with a short header or an underrun, and any extension decodes to the same value. |
| CdrLaws.PrefixFree | include/talosos/serialization.h:274-288 | Distinct values of one schema never serialize to bytes of which one is a prefix of the other. |
| CdrLaws.Local | include/talosos/serialization.h:169-173 | Reading never looks past the cursor's final position: on a cut buffer it returns the same or underruns. |
| CdrLaws.DecTyped | include/talosos/serialization.h:199-240 | Whatever is read is a value of the schema whose lengths fit. |
| CdrLaws.DecodeThenRoundTrip | include/talosos/serialization.h:94-101 | Any buffer that decodes, canonical or not, decodes to a value whose own serialization decodes to it again. |
| CdrLaws.HeaderIgnored | include/talosos/serialization.h:96-101 | A body decodes alike behind any four header bytes. |
| CdrLaws.Period | include/talosos/serialization.h:85-89 | Encodings at start offsets congruent modulo 8 are identical, although parts do not concatenate freely. |
| CdrLaws.ByteElems | include/talosos/serialization.h:213-219 | Bytes written one element at a time are the bytes themselves, unpadded. |
| CdrLaws.ByteElemsRead | python/talosos/cdr.py:121-130 | Reading bytes one at a time is one bounds check and one slice, with the same underrun. |
| CdrLayout.UIntLayout | include/talosos/serialization.h:33-53 | Byte i of an integer is its value shifted right by 8*i; before it stand zero bytes, as few as put it at a multiple of its size from the end of the header. |
| CdrLayout.IntegerRange | include/talosos/serialization.h:30-51 | What each of the eight integer types can hold, in numbers. |
| CdrLayout.BitsAre | include/talosos/serialization.h:30-66 | The number behind a value: itself, its two's complement, its bit pattern, or 1 or 0; and the size of each type. |
| CdrLayout.PrimLayout | include/talosos/serialization.h:29-66 | A fixed-size value is aligned to its own size behind zero bytes and reads, least significant byte first, as the number behind it. |
| CdrLayout.StrLayout | include/talosos/serialization.h:68-73 | A string is, aligned, its length with the terminator in 32 bits, its bytes, and a zero byte. |
| CdrLayout.SeqLayout | include/talosos/serialization.h:213-219 | A vector is, aligned, the number of its elements in 32 bits and then the elements as an array. |
| CdrLayout.ArrayLayout | include/talosos/serialization.h:232-235 | An array cut anywhere is the first part followed by the rest at its own offset: elements in order, nothing between them. |
| CdrLayout.StructLayout | include/talosos/serialization.h:258-264 | A struct cut anywhere is the first fields followed by the others at their own offset, in the listed order. |
| CdrLayout.HeaderIs | include/talosos/serialization.h:20-27 | Every serialization begins 00 01 00 00. |
| Cdr.OfToBits | include/talosos/serialization.h:30-66 | Casting to the unsigned type of the same width and back loses nothing. |
| Bytes.DecodeLittleEndian | include/talosos/serialization.h:116-135 | Assembling the low n bytes of a number that fits gives the number back. |
| Bytes.EncodeDecoded | include/talosos/serialization.h:40-53 | Splitting an assembled number gives the bytes back. |
| Bytes.LittleEndianExtend | include/talosos/serialization.h:42-44 | The byte at shift 8*n is what one more loop iteration appends. |
| Bytes.FromLittleEndianExtend | include/talosos/serialization.h:119-121 | One more byte of the reading loop adds its value at 256^n. |
| CdrCodec.Writer.constructor | include/talosos/serialization.h:24-27 | A new writer holds the little-endian encapsulation header. |
| CdrCodec.Writer.Align | include/talosos/serialization.h:85-89 | The loop appends exactly the padding of the format: zero bytes, fewer than n, up to a multiple of n from the end of the header. |
| CdrCodec.Writer.WriteUInt | include/talosos/serialization.h:33-54 | Padding and byte loop append the encoding of the integer at the current offset. |
| CdrCodec.Writer.WriteU8 | include/talosos/serialization.h:29 | A byte goes in unpadded, which is its encoding. |
| CdrCodec.Writer.WritePrim | include/talosos/serialization.h:29-66 | Every fixed-size overload appends the encoding of its cast value. |
| CdrCodec.Writer.WriteString | include/talosos/serialization.h:68-73 | Length with terminator (wrapping at 2^32), bytes, terminator. |
| CdrCodec.Writer.Write | include/talosos/serialization.h:182-264 | The overload chosen for a schema appends the encoding of the value at the current offset. |
| CdrCodec.Writer.WriteElems | include/talosos/serialization.h:213-235 | The element loop appends the encodings of the elements, each at its own offset. |
| CdrCodec.Writer.WriteFields | include/talosos/serialization.h:258-264 | The fold over the listed fields appends them in the listed order. |
| CdrCodec.Reader.constructor | include/talosos/serialization.h:96-101 | A reader starts behind the header of a buffer that has one. |
| CdrCodec.Reader.Align | include/talosos/serialization.h:164-168 | The cursor moves by the padding of the format, possibly past the end. |
| CdrCodec.Reader.ReadUInt | include/talosos/serialization.h:103-136 | Reads the aligned integer and moves past it, or underruns. |
| CdrCodec.Reader.ReadString | include/talosos/serialization.h:151-159 | Reads length and bytes without the terminator; length field 0 is an empty string. |
| CdrCodec.Reader.Read | include/talosos/serialization.h:199-272 | The overload chosen for a schema returns the decoded value and leaves the cursor where decoding ends, or throws what decoding throws. |
| CdrCodec.Reader.ReadElems | include/talosos/serialization.h:221-240 | The element loop decodes n elements from the cursor on. |
| CdrCodec.Reader.ReadFields | include/talosos/serialization.h:266-272 | The fold decodes the fields in the listed order. |
| CdrCodec.Serialize | include/talosos/serialization.h:275-280 | The buffer begins 00 01 00 00, is the serialization, and deserializes to the value if and only if the value's lengths fit. |
| CdrCodec.Deserialize | include/talosos/serialization.h:282-288 | The result is well typed, and every buffer that starts with the serialization of a value gives that value. |
| CdrPython.MaskedSigned | python/talosos/runtime.py:405-407 | A signed field sent through the masked unsigned path has the bytes of its signed form and casts back to itself. |
| CdrPython.CdrWriter.Align | python/talosos/runtime.py:222-225 | Appends exactly the padding of the format: zero bytes, fewer than n, up to a multiple of n from the end of the header. |
| CdrPython.CdrWriter.U8 | python/talosos/runtime.py:227 | Appends the masked byte. |
| CdrPython.CdrWriter.U32 | python/talosos/runtime.py:235-236 | For any Python integer, appends the C++ encoding of its low 32 bits. |
| CdrPython.CdrWriter.I32 | python/talosos/runtime.py:237-238 | Appends the C++ encoding when in range, raises after the padding otherwise. |
| CdrPython.CdrWriter.WritePrim | python/talosos/runtime.py:227-246 | All eleven number methods: appends the C++ encoding of the value, masked where the method masks, or raises after the padding where struct.pack does. |
| CdrPython.EmittedExactly | python/talosos/runtime.py:227-242 | A number the C++ field can hold goes out as itself; a method raises exactly when it is a signed one of 2, 4 or 8 bytes and the number does not fit. |
| CdrPython.EmittedCongruent | python/talosos/runtime.py:227-242 | Whatever an integer method sends differs from its number by a multiple of two to the field's width. |
| CdrPython.CdrWriter.String | python/talosos/runtime.py:248-252 | Appends the C++ encoding of the string. |
| CdrPython.CdrWriter.Bytes | python/talosos/runtime.py:357-359 | A length and the raw bytes are the C++ encoding of a vector of bytes. |
| CdrPython.CdrWriter.WriteTime | python/talosos/runtime.py:302-303 | Emits the bytes of the C++ Time. |
| CdrPython.CdrWriter.WriteDuration | python/talosos/runtime.py:405-407 | Emits the bytes of the C++ Duration, whose nanosec is signed there, for every duration the struct can hold. |
| CdrPython.CdrWriter.WriteHeader | python/talosos/runtime.py:305-306 | Emits the bytes of the C++ Header. |
| CdrPython.CdrWriter.WritePointField | python/talosos/runtime.py:344-348 | Emits the bytes of the C++ PointField. |
| CdrPython.CdrWriter.WritePointFields | python/talosos/runtime.py:353-354 | Length and loop emit the bytes of the C++ vector. |
| CdrPython.CdrWriter.WriteCloudBody | python/talosos/runtime.py:352-360 | The fields after the header complete the encoding of the struct in its field order. |
| CdrPython.CdrWriter.WritePointCloud2 | python/talosos/runtime.py:350-360 | Emits the bytes of the C++ PointCloud2 exactly when the stamp's seconds fit an int32. |
| CdrPython.CdrWriter.Write | python/talosos/runtime.py:302-447 | For a message of any schema, written field by field and element by element: emits the bytes of the C++ value it stands for, and raises exactly when one of its numbers does. |
| CdrPython.CdrWriter.WriteElems | python/talosos/runtime.py:339-342 | The same for the elements of a list. |
| CdrPython.CdrWriter.WriteFields | python/talosos/runtime.py:302-324 | The same for fields in order. |
| CdrPython.PointCloud2GoesOut | python/talosos/runtime.py:350-360 | A point cloud is one of these messages and stands for the same C++ value. |
| CdrPython.SequenceU8 | python/talosos/cdr.py:125-130 | The bulk read returns what the C++ element loop reads and fails exactly when it fails. |
| CdrPython.PublishPointCloud2 | python/talosos/runtime.py:350-360 | A point cloud published from Python is what a C++ subscriber decodes, with unsigned fields reduced to their width, if and only if no length field wraps. |
| CdrPython.Publish | python/talosos/runtime.py:302-447 | A message of any schema published from Python is what a C++ subscriber decodes, if and only if no length field wraps. |
| StorageModel.HashString | zenoh-cpp/zenoh-c/examples/z_storage.c:187-195 | The loop computes djb2 over size_t, wrapping, with signed chars sign-extended. |
| StorageModel.HashIs | zenoh-cpp/zenoh-c/examples/z_storage.c:187-195 | The hash is 5381 * 33^n plus the signed characters as digits in base 33, wrapped once at the end to 64 bits. |
| StorageModel.CompareString | zenoh-cpp/zenoh-c/examples/z_storage.c:197-203 | Equal lengths and strncmp: equal bytes up to a shared NUL. |
| StorageModel.CompareExactly | zenoh-cpp/zenoh-c/examples/z_storage.c:197-203 | The comparison is equality, except for strings of one length that share a prefix ending in NUL. |
| StorageModel.KeysCompare | zenoh-cpp/zenoh-c/examples/z_storage.c:197-203 | When one of two keys holds no NUL, the comparison is equality. |
| StorageModel.IndexOf | zenoh-cpp/zenoh-c/examples/z_storage.c:205-216 | The first position in a chain whose key compares equal, or its length. |
| StorageModel.PutChainLaws | zenoh-cpp/zenoh-c/examples/z_storage.c:234-250 | Replace or append leaves the new sample and exactly the others whose keys do not compare equal to its; no two keys of the chain compare equal. |
| StorageModel.DelChainLaws | zenoh-cpp/zenoh-c/examples/z_storage.c:259-273 | Unlinking leaves exactly the samples whose keys do not compare equal. |
| StorageModel.PutRefines | zenoh-cpp/zenoh-c/examples/z_storage.c:228-251 | Insert, on every key: the map loses the keys in the slot of the new one and gains it, every key in its hash bin. |
| StorageModel.DelRefines | zenoh-cpp/zenoh-c/examples/z_storage.c:253-274 | Remove, on every key: the map loses exactly the keys in the slot of the given one. |
| StorageModel.MapExactly | zenoh-cpp/zenoh-c/examples/z_storage.c:197-274 | These are the update and the removal of a finite map if and only if no other key of the map is in that slot. |
| StorageModel.LookupIs | zenoh-cpp/zenoh-c/examples/z_storage.c:218-226 | Find returns the stored sample in the slot of the key, if there is one. |
| StorageModel.LookupExactly | zenoh-cpp/zenoh-c/examples/z_storage.c:218-226 | It returns what the finite map holds for the key if and only if no other key of the map is in its slot. |
| StorageModel.RunIs | zenoh-cpp/zenoh-c/examples/z_storage.c:75-82 | After any sequence of puts and deletes the table stands for the map they make slot by slot. |
| StorageModel.RunRefinesMap | zenoh-cpp/zenoh-c/examples/z_storage.c:75-82 | The table follows the finite map of a run of puts and deletes, after every one of them, if and only if none meets another key in its slot. |
| StorageModel.UnlikeKeysApart | zenoh-cpp/zenoh-c/examples/z_storage.c:187-203 | No event of a run meets another key in its slot when no two different keys of the run share one. |
| StorageModel.NulFreeApart | zenoh-cpp/zenoh-c/examples/z_storage.c:197-203 | Nor does any when no key of the run holds a NUL, for any number of bins. |
| StorageModel.NulKeysShareSlot | zenoh-cpp/zenoh-c/examples/z_storage.c:187-203 | Two different keys with one hash that compare equal. |
| StorageModel.NulKeysOverwrite | zenoh-cpp/zenoh-c/examples/z_storage.c:228-251 | Storing one and then the other leaves one entry, for any number of bins. |
| StorageModel.FlattenMembers | zenoh-cpp/zenoh-c/examples/z_storage.c:299-320 | The visiting order holds exactly the samples of the bins. |
| StorageModel.FlattenDistinct | zenoh-cpp/zenoh-c/examples/z_storage.c:299-320 | No key is visited twice, across bins either. |
| StorageModel.QueryAnswers | zenoh-cpp/zenoh-c/examples/z_storage.c:86-99 | Filtering the visiting order gives exactly the stored entries whose key intersects, each once. |
| Storage.Table.constructor | zenoh-cpp/zenoh-c/examples/z_storage.c:276-284 | A new table has empty bins and stands for the empty map. |
| Storage.Table.FindNode | zenoh-cpp/zenoh-c/examples/z_storage.c:205-216 | Walking next pointers returns the node at the first position whose key compares equal, or null when there is none. |
| Storage.Table.Find | zenoh-cpp/zenoh-c/examples/z_storage.c:218-226 | The stored sample in the slot of the key; what the finite map holds for the key if and only if no other stored key is in that slot. |
| Storage.Table.Insert | zenoh-cpp/zenoh-c/examples/z_storage.c:228-251 | In place: the map gains or overwrites one entry, evicting other keys in its slot, and is the finite map's update if and only if there are none; chains stay acyclic, doubly linked, disjoint, free of repeats and in their hash bins. |
| Storage.Table.InsertAt | zenoh-cpp/zenoh-c/examples/z_storage.c:234-250 | The three cases of insertion on the heap: replace, first node, append. |
| Storage.Table.AppendAt | zenoh-cpp/zenoh-c/examples/z_storage.c:242-250 | A fresh node behind the tail of its chain, every other chain untouched. |
| Storage.AppendNode | zenoh-cpp/zenoh-c/examples/z_storage.c:243-249 | The walk to the tail and the two pointer updates give the chain with one more node, prev and next consistent. |
| Storage.UnlinkNode | zenoh-cpp/zenoh-c/examples/z_storage.c:263-270 | The pointer updates give the chain without that node, whatever its position, prev and next consistent. |
| Storage.Table.Remove | zenoh-cpp/zenoh-c/examples/z_storage.c:253-274 | In place: the map loses exactly the keys in the slot of the key, which is the finite map's removal if and only if no other key is there; the table invariant is kept. |
| Storage.Table.UnlinkAt | zenoh-cpp/zenoh-c/examples/z_storage.c:263-273 | The node leaves its chain and the owned nodes, every other chain untouched. |
| Storage.Table.FirstNonEmptyBin | zenoh-cpp/zenoh-c/examples/z_storage.c:299-307 | Stands at the first sample left from a bin on, or at the end when none is. |
| Storage.Table.Begin | zenoh-cpp/zenoh-c/examples/z_storage.c:309 | Everything stored is left to visit. |
| Storage.Table.Next | zenoh-cpp/zenoh-c/examples/z_storage.c:313-320 | The sample under the iterator is the first of what is left; advancing leaves exactly the others. |
| Storage.Table.Scan | zenoh-cpp/zenoh-c/examples/z_storage.c:86-99 | The loop visits every sample once, stops, and replies in visiting order. |
| Storage.Table.Query | zenoh-cpp/zenoh-c/examples/z_storage.c:86-99 | Replies with exactly the stored entries whose key intersects the query, each once. |
| Storage.Subscribe | zenoh-cpp/zenoh-c/examples/z_storage.c:63-84 | The heap table after any stream of samples is the map they make slot by slot; it follows their finite map if and only if no event meets another key in its slot. |
| ActionProtocol.ToString | include/talosos/action.h:34-43 | The loop prints every byte as two lower-case hex digits, high nibble first. |
| ActionProtocol.ToHexInjective | include/talosos/action.h:34-43 | Different goal ids print differently, so keying the maps by text is safe. |
| ActionProtocol.NewGoalID | include/talosos/action.h:49-65 | Two draws, least significant byte first, with the version and variant bits put in. |
| ActionProtocol.StampIs | include/talosos/action.h:62-63 | For every draw the version nibble is 4 and the variant bits are 10, and two draws give one id exactly when they agree on the other 122 bits. |
| ActionSafety.InvKept | include/talosos/action.h:227-311 | Every atomic step of server, clients and network keeps the invariant: active holds exactly the acceptances not erased, executions of one id are serial, threads are accounted for, messages have their origin, handles wait or are answered. |
| ActionSafety.AlwaysInv | include/talosos/action.h:227-455 | The invariant holds in every state of every run. |
| ActionSafety.StepOnRun | include/talosos/action.h:227-294 | What one step can do to an acceptance: its id and goal stay, what it published stands, erased it is frozen, and its flag changes only when it is asked to stop. |
| ActionSafety.ResultSafety | include/talosos/action.h:406-427 | Over every run a handle's result is stored at most once, never changes, and holds the status and the value that some execution of the goal sent under that id returned, or Aborted and the initialized result when it threw. |
| ActionSafety.FlagExactly | include/talosos/action.h:286-294 | In every reachable state a cancel flag is set if and only if a cancel for that very id, or the destructor's locked block, came between acceptance and erasure. |
| ActionSafety.NewRunUnflagged | include/talosos/action.h:230-240 | Only an acceptance adds a run, and its flag starts clear, whatever became of earlier runs of that id. |
| ActionSafety.Conservation | include/talosos/action.h:233-284 | Per id, acceptances are erasures plus one if active, published results lie between, and of two executions the earlier is over. |
| ActionSafety.LostExactly | include/talosos/action.h:244-248 | Over every run, an accepted goal is lost, its thread returning at once, if and only if its HandleGoal read shared_self before Finalize. |
| ActionSafety.LostReachable | include/talosos/action.h:244-248 | For every goal there is a run that loses it. |
| ActionSafety.LostForever | include/talosos/action.h:244-248 | A lost goal stays lost, its id stays active, and no later acceptance of the id exists. |
| ActionDelivery.CancelsExactly | include/talosos/action.h:346-350 | Over every run, a cancel message is on its way if and only if a client asked for it through a handle of that id. |
| ActionDelivery.GoalsExactly | include/talosos/action.h:448-451 | Over every run, a goal message is on its way if and only if a client sent it from a handle of that id and goal. |
| ActionDelivery.ResultsExactly | include/talosos/action.h:262-275 | Over every run, a result message is on its way if and only if a worker published it, with what its execution returned, or Aborted and the initialized result when it threw. |
| ActionDelivery.StoredExactly | include/talosos/action.h:412-424 | Over every run, a handle holds a result if and only if the client's callback took that result and stored it there. |
| ActionDelivery.Exchange | include/talosos/action.h:227-455 | For every goal and every outcome there is a run in which a client sends the goal and asks to cancel it, the server executes it with its flag set, and the handle ends up with what the execution came to. |
| ActionShutdown.ShutdownCovers | include/talosos/action.h:184-196 | When no HandleGoal is under way at the locked block, from then on no goal is accepted and every execution not over is flagged and among the threads joined. |
| ActionShutdown.ShutdownExactly | include/talosos/action.h:184-284 | In every reachable state about to lock: in every continuation all executions under way are flagged and among the threads joined, if and only if the server was never finalized, or no accepted goal waits for its thread, no unregistered thread is alive, and the goals still to be looked up are blocked by lost ones. |
| ActionShutdown.TightForever | include/talosos/action.h:184-284 | The good direction: once such a state has locked, every step keeps it. |
| ActionShutdown.NeverStarts | include/talosos/action.h:244-248 | A server destroyed without having been finalized never executes anything. |
| ActionShutdown.UnsealedBreaks | include/talosos/action.h:184-284 | The bad direction: from any other state of a finalized server some continuation leaves an execution under way unjoined. |
| ActionShutdown.OutlivesUnjoined | include/talosos/action.h:233-284 | On a finalized server, a duplicate that waits for an execution under way is accepted once that is over and starts unjoined. |
| ActionShutdown.QuietIsSealed | include/talosos/action.h:184-196 | No HandleGoal under way is one way to meet the condition. |
| ActionShutdown.ShutdownRace | include/talosos/action.h:228-284 | A HandleGoal past the check, for a goal not active, can register and start it after the locked block, unflagged and unjoined. |
| ActionShutdown.RaceReachable | include/talosos/action.h:184-228 | A state with that race ahead is reachable for every goal. |
| ActionShutdown.UnregisteredReachable | include/talosos/action.h:245-283 | A run in which a thread created and not yet registered is missed, with no other HandleGoal waiting. |
| ActionDuplicates.DuplicateExactly | include/talosos/action.h:233-240 | Over every run, a goal message that is looked up is ignored if and only if some acceptance of its id is not yet over; otherwise it is accepted with a clear flag. |
| ActionDuplicates.ErasedExactly | include/talosos/action.h:277-278 | Over every run, an execution is over if and only if its worker took its last locked step. |
| ActionDuplicates.TwiceExactly | include/talosos/action.h:233-284 | Over every run, an id is accepted twice if and only if one of its goal messages is looked up after an execution of it was over. |
| ActionDuplicates.LateDuplicate | include/talosos/action.h:233-240 | A goal message delivered while its id is not active can be executed and publish any status and value, or Aborted and the initialized result, again if it was executed before. |
| ActionDuplicates.ExecutedTwice | include/talosos/action.h:233-284 | From the initial state one goal message can be executed twice, with any two outcomes. |
| ActionObjects.ActionServer.AcceptGoal | include/talosos/action.h:230-240 | The locked block takes the accept step; the flag handed to the worker is fresh, clear, and the one stored under the id, or null for a duplicate. |
| ActionObjects.ActionServer.DeliverCancel | include/talosos/action.h:286-294 | Storing through the aliased flag takes the cancel step and touches no other acceptance. |
| ActionObjects.ActionServer.Canceling | include/talosos/action.h:137 | The worker's handle reads the flag of its own acceptance. |
| ActionObjects.ActionServer.EraseRun | include/talosos/action.h:277-278 | The worker's last locked block takes the erase step. |
| ActionObjects.ActionServer.BeginGoal | include/talosos/action.h:228 | A goal message goes on exactly when the server is not shutting down. |
| ActionObjects.ActionServer.LockedShutdown | include/talosos/action.h:188-194 | Takes the destructor's locked step: every active flag set through its alias, no other, and all registered threads handed over for joining. |
| ActionObjects.StoreAll | include/talosos/action.h:190-192 | The loop over active sets the flags of exactly the acceptances not erased, in whatever order it visits them. |
| ActionObjects.HandleState.Poll | include/talosos/action.h:326-345 | A wait that gets through returns the status and result stored for that handle. |
| ActionObjects.ActionClient.Register | include/talosos/action.h:434-446 | SendGoal's locked block takes the register step and hands out a fresh state object. |
| ActionObjects.ActionClient.TakeResult | include/talosos/action.h:412-418 | Find and erase under the client's lock take the step that claims a handle, or leave the client alone when none waits. |
| ActionObjects.ActionClient.StoreResult | include/talosos/action.h:419-424 | Storing into the claimed state object takes the store step and changes no other handle. |
| ActionObjects.ActionClient.Undisturbed | include/talosos/action.h:406-455 | Steps of the server and of other clients leave this client's object in agreement with the system. |
| FeatureScanner.ProcessFeatureDefines | zenoh-cpp/zenoh-c/buildrs/cbindgen_generator.rs:484-510 | The loop with skip and nest_level never underflows and outputs exactly the lines the one-counter pass keeps, each ended by a line feed, or panics with it. |
| FeatureScanner.TextLines | zenoh-cpp/zenoh-c/buildrs/cbindgen_generator.rs:503-506 | The output splits at its line feeds into exactly the lines kept, with nothing behind the last one. |
| FeatureScanner.LineClasses | zenoh-cpp/zenoh-c/buildrs/cbindgen_generator.rs:491-497 | Which beginnings make a line an `#if `, an `#ifdef`, an `#endif` or another conditional, whatever follows. |
| FeatureScanner.ParseNested | zenoh-cpp/zenoh-c/buildrs/cbindgen_generator.rs:481-510 | Every well-nested input is the text of a tree of conditionals. |
| FeatureScanner.ScanIsPruneExactly | zenoh-cpp/zenoh-c/buildrs/cbindgen_generator.rs:481-510 | On well-nested lines the pass is pruning every `#if ` subtree whose condition is false if and only if evaluating the tree panics or removed subtrees open conditionals only with `#if ` or `#ifdef`; otherwise it panics or keeps more. |
| FeatureScanner.ScanBound | zenoh-cpp/zenoh-c/buildrs/cbindgen_generator.rs:490-501 | In a removed region the counter comes back to its level exactly when the region is counted in full, and otherwise ends lower. |
| FeatureScanner.CleanScan | zenoh-cpp/zenoh-c/buildrs/cbindgen_generator.rs:490-507 | On inputs counted in full the pass is pruning, panics included. |
| FeatureScanner.UncleanScan | zenoh-cpp/zenoh-c/buildrs/cbindgen_generator.rs:490-507 | Where pruning finishes on any other input, the pass panics or keeps more lines. |
| FeatureScanner.PanicScan | zenoh-cpp/zenoh-c/buildrs/cbindgen_generator.rs:512-529 | Where pruning evaluates a condition that panics, so does the pass, on any well-formed input. |
| FeatureScanner.UncountedIsKept | zenoh-cpp/zenoh-c/buildrs/cbindgen_generator.rs:491-501 | Five lines with a removed `#ifndef`, of which two are kept that pruning removes. |
| FeatureScanner.Idempotent | zenoh-cpp/zenoh-c/buildrs/cbindgen_generator.rs:484-510 | A second pass changes nothing, on every input, nested or not. |
| SplitGuide.TypedefSpan | zenoh-cpp/zenoh-c/buildrs/splitguide.rs:305-318 | The character loop finds the length of a typedef. |
| SplitGuide.TypedefEnds | zenoh-cpp/zenoh-c/buildrs/splitguide.rs:305-319 | That length ends with the first `;` outside braces, or with the text. |
| SplitGuide.WhitespaceSpan | zenoh-cpp/zenoh-c/buildrs/splitguide.rs:373-387 | The loop takes the longest run of leading white space. |
| SplitGuide.Find | zenoh-cpp/zenoh-c/buildrs/splitguide.rs:463-470 | A found position holds the pattern. |
| SplitGuide.FindFirst | zenoh-cpp/zenoh-c/buildrs/splitguide.rs:463-470 | If the pattern occurs it is found, no later than any occurrence. |
| SplitGuide.SpansOk | zenoh-cpp/zenoh-c/buildrs/splitguide.rs:287-299 | Whatever constructor applies, the token takes a non-empty prefix of the text. |
| SplitGuide.QuotedIncludePanics | zenoh-cpp/zenoh-c/buildrs/splitguide.rs:442-457 | A quoted include always panics. |
| SplitGuideTokens.NextExactly | zenoh-cpp/zenoh-c/buildrs/splitguide.rs:287-461 | For every text, the next token is t if and only if t is the token the text begins with, and the tokenizer panics if and only if the text begins with a quoted include, an include without its end or an empty definition. |
| SplitGuideTokens.OtherExactly | zenoh-cpp/zenoh-c/buildrs/splitguide.rs:341-371 | A declaration runs to its first `;`: it is a constant named before the `;` if `const` occurs in it, otherwise a function named before its last `(` if it has one, otherwise nothing. |
| SplitGuideTokens.TypedefExactly | zenoh-cpp/zenoh-c/buildrs/splitguide.rs:305-339 | A typedef is named by the identifier before its end, runs to the first `;` outside braces, and is private if and only if the name starts with `_`. |
| SplitGuideTokens.DefineExactly | zenoh-cpp/zenoh-c/buildrs/splitguide.rs:414-429 | A definition is its line, named by its first word, private if and only if `_` follows `#define `; one of white space alone panics. |
| SplitGuideTokens.AngledExactly | zenoh-cpp/zenoh-c/buildrs/splitguide.rs:442-461 | An angled include runs to its first `>` and is named by what stands between; without one it panics. |
| SplitGuideTokens.TrailingExactly | zenoh-cpp/zenoh-c/buildrs/splitguide.rs:320-326 | The name found at the end of a text is the longest ending of letters, digits and underscores. |
| SplitGuideTokens.FindExactly | zenoh-cpp/zenoh-c/buildrs/splitguide.rs:463-470 | A pattern is found if and only if it occurs, at its first occurrence. |
| SplitGuideGroups.Tokenizer.Next | zenoh-cpp/zenoh-c/buildrs/splitguide.rs:475-495 | Returns the token the text begins with, its type, id and span, and leaves exactly the text behind it; panics when there is none. |
| SplitGuideGroups.Record.Add | zenoh-cpp/zenoh-c/buildrs/splitguide.rs:184-226 | Takes the token into the record, its type and its nesting, and fails exactly on an unmatched `#endif`. |
| SplitGuideGroups.GroupTokens | zenoh-cpp/zenoh-c/buildrs/splitguide.rs:111-125 | The loop over the iterator builds the records of the recursive grouping, or fails or panics with it. |
| SplitGuideGroups.TokensTile | zenoh-cpp/zenoh-c/buildrs/splitguide.rs:475-495 | Token spans are non-empty and concatenate back to the text. |
| SplitGuideGroups.AddKeepsRec | zenoh-cpp/zenoh-c/buildrs/splitguide.rs:138-226 | A record's type is Empty, the single type or Multiple by the typed tokens it holds, its ids are theirs in order, its nesting is what its tokens leave open; adding fails exactly when that would go negative. |
| SplitGuideGroups.RecordTypeIs | zenoh-cpp/zenoh-c/buildrs/splitguide.rs:127-150 | A record has the type of its only declaration, is Multiple if and only if it has several, and Empty if and only if it has none. |
| SplitGuideGroups.TokensInPlace | zenoh-cpp/zenoh-c/buildrs/splitguide.rs:475-495 | Every token of a text is the one that the text from its place on begins with. |
| SplitGuideGroups.GroupLaws | zenoh-cpp/zenoh-c/buildrs/splitguide.rs:111-125 | Grouping loses and reorders no token; every record but the last is typed, balanced, and was so at no earlier token. |
| SplitGuideGroups.GroupFails | zenoh-cpp/zenoh-c/buildrs/splitguide.rs:201-208 | On text the tokenizer accepts, grouping fails if and only if some prefix of the tokens closes more than it opens. |
| SplitGuideGroups.SplitHeader | zenoh-cpp/zenoh-c/buildrs/splitguide.rs:111-125 | The whole pass over a header: tokens tile it and each is what its place begins with, the exact failure condition, and the laws of the records. |
| SplitGuideGroups.BoundariesBalanced | zenoh-cpp/zenoh-c/buildrs/splitguide.rs:176-178 | No record boundary falls inside an open conditional. |
| TfTree.ParentOf | python/talosos/commands/rqt.py:682-684 | The parent a dictionary gives a frame. |
| TfTree.SetEdgeLaws | python/talosos/commands/rqt.py:682-683 | Assigning a key keeps keys unique and changes that entry only. |
| TfTree.SetEdgePlace | python/talosos/commands/rqt.py:682-683 | A new key goes last and an existing one keeps its place. |
| TfView.UpdateIs | python/talosos/commands/rqt.py:682-683 | After a message an entry is in the dictionary if and only if the last transform of its child says so, or it was there and no transform concerns its child. |
| TfTree.RootsAre | python/talosos/commands/rqt.py:684 | A root is a frame that is some entry's parent and no entry's child. |
| TfTree.DepthUnique | python/talosos/commands/rqt.py:684-690 | A frame reaches a root over chains of one length at most. |
| TfTree.PathBound | python/talosos/commands/rqt.py:686-689 | A path from a root is no longer than the dictionary allows, cycles or not: the walk terminates. |
| TfTree.WalkMembers | python/talosos/commands/rqt.py:686-689 | A walk prints exactly the frames whose chain passes through its start, at the length of the chain. |
| TfTree.WalkDistinct | python/talosos/commands/rqt.py:686-689 | ... each once. |
| TfOrder.RenderExactly | python/talosos/commands/rqt.py:684-690 | For every dictionary the panel shows a frame at a depth if and only if a chain of that many entries leads to it from a frame that is some entry's parent and no entry's child, and shows each frame once. |
| TfOrder.ChainAtDepth | python/talosos/commands/rqt.py:684-690 | Such a chain is the one that following parents finds. |
| TfOrder.RenderOrdered | python/talosos/commands/rqt.py:687-690 | The unindented lines are the roots in the order given, and lines below a common parent stand in the order of the dictionary. |
| TfTree.RenderIndented | python/talosos/commands/viz.py:967-971 | The parent of every indented line is the nearest line above it that is indented one step less. |
| TfView.TfPanel.WalkNode | python/talosos/commands/viz.py:1003-1008 | The recursive walk appends the lines of the subtree, for every dictionary. |
| TfView.TfPanel.PrintRoots | python/talosos/commands/rqt.py:690 | One walk per root in the order given. |
| TfView.TfPanel.Tick | python/talosos/commands/rqt.py:677-691 | A new message updates the dictionary and prints the whole tree again under the title: exactly the frames reached by chains from roots, each once, two spaces in per entry, under its parent, roots sorted and siblings in dictionary order; the same message changes nothing. |
| Sorting.SortedList | python/talosos/commands/rqt.py:690 | The members of a set, in order and without repeats. |
| Sorting.LeqIs | python/talosos/commands/rqt.py:690 | A text is no later than another if and only if it begins it, or is smaller at the first character where they differ. |
| Octree.GenerateOctree | examples/python/random_octomap_publisher.py:36-60 | The recursion with its three nested loops returns the voxels and uses up the draws of the specification, child by child. |
| Octree.Shape | examples/python/random_octomap_publisher.py:36-60 | For every stream of draws the voxels lie inside the root cube, do not overlap, and have its side halved at most max_depth times. |
| Octree.VolumeExactly | examples/python/random_octomap_publisher.py:36-60 | Their volume is at most the root's, and equal to it if and only if every occupancy draw succeeds. |
| OctreeDraws.GenerateExactly | examples/python/random_octomap_publisher.py:36-60 | The voxels are the occupied leaves of the tree that the draws describe, in order, and the draws used are one per split and per deepest leaf and two per leaf above. |
| OctreeDraws.SomeTree | examples/python/random_octomap_publisher.py:36-60 | From every position on, the draws describe a tree. |
| OctreeDraws.OneTree | examples/python/random_octomap_publisher.py:36-60 | They describe only one. |
| OctreeDraws.FullExactly | examples/python/random_octomap_publisher.py:36-60 | The voxels fill the root cube if and only if no leaf of that tree is empty. |
| Octree.OctantsSeparate | examples/python/random_octomap_publisher.py:49-57 | What lies in different children is separated by an axis. |
| Octree.SeparateMeans | examples/python/random_octomap_publisher.py:49-57 | Separated cubes share no interior point. |
| Splitting.SplitOn | src/tool/talosos_tool.cc:93-106 | The loop returns the segments between separators, empty ones included. |
| Splitting.SplitJoin | src/tool/talosos_tool.cc:93-106 | Splitting what was joined gives the segments back. |
| Splitting.JoinSplit | src/tool/talosos_tool.cc:93-106 | Joining what was split gives the text back, and no segment holds a separator. |
| Discovery.StripSlashes | src/node.cc:68-72 | The loop skips the leading slashes. |
| Discovery.StripIs | src/node.cc:68-72 | All leading slashes go and nothing else does. |
| Discovery.ResolvedKey | src/node.cc:143-157 | A named node never resolves a topic to a key with a leading slash. |
| DiscoveryNames.NodeKey | src/node.cc:143-146 | A node's key has the segments of its namespace without leading slashes and then its name. |
| DiscoveryNames.TopicKey | src/node.cc:148-157 | A relative topic resolves to the node's segments and then its own, `~/x` to the node's and then those of x, `/x` to x without its leading slashes, and the empty topic to the node. |
| DiscoveryNames.JoinKeySegments | src/node.cc:74-82 | Two names are put together by exactly one slash, whatever slashes they meet with. |
| Discovery.BuildLiveKey | src/node.cc:251-257 | The in-place edits build the liveliness key. |
| Discovery.ReplaceSlashes | src/node.cc:251-253 | Slashes in the type are replaced, in place. |
| Discovery.LiveKeyParts | src/node.cc:255-257 | The segments of a printed key are the fixed prefix, those of the topic key, the marked type, and those of the node. |
| Discovery.ParseExactly | src/tool/talosos_tool.cc:265-298 | Parsing a printed key recovers topic key, type and node if and only if no segment of the key is a marker and the type is not `_n`. |
| DiscoveryNames.ParsedExactly | src/tool/talosos_tool.cc:265-298 | A key is read if and only if it has at least four segments, begins with `_talos` and has a segment behind a `_n`; topic key, type and node are the segments between the marks. |
| Discovery.MarkedKeyMisread | src/tool/talosos_tool.cc:265-298 | Topic a/_t/b announced without a type is read as topic a of type b. |
| DiscoveryRegistry.FindMarkers | src/tool/talosos_tool.cc:269-276 | The scan finds the first `_n` and the first `_t` before it. |
| DiscoveryRegistry.JoinRange | src/tool/talosos_tool.cc:278-298 | The three rebuilding loops join a range of segments with slashes. |
| DiscoveryRegistry.ReadReply | src/tool/talosos_tool.cc:264-298 | The reply parser returns what the key announces, or ignores it. |
| DiscoveryRegistry.Lister.OnReply | src/tool/talosos_tool.cc:261-304 | A reply enters the registry: first non-empty type kept, node added, every other key untouched. |
| DiscoveryRegistry.BuildIs | src/tool/talosos_tool.cc:300-303 | The registry of any replies: the keys announced, the first non-empty type, exactly the nodes announced. |
| DiscoveryRegistry.FirstTypeExactly | src/tool/talosos_tool.cc:300-303 | The type kept is that of the first announcement of the key whose type is not empty. |
| DiscoveryRegistry.OrderIndependent | src/tool/talosos_tool.cc:258-304 | Order and repetition of replies change neither keys nor nodes, and nothing at all when the non-empty types agree. |
| DiscoveryRegistry.RepliesIndependent | src/tool/talosos_tool.cc:258-304 | The same for the replies themselves, whatever keys they hold. |
| DiscoveryRegistry.PrintRegistry | src/tool/talosos_tool.cc:319-327 | Prints one line per key, each with its type and each of its nodes once, keys and nodes in order, every column up to its first NUL. |
| DiscoveryRegistry.ReadRowExactly | python/talosos/commands/topic.py:651-662 | A printed row reads back if and only if no column holds a tab, a NUL or, in a node, a comma, and the nodes are not one empty name. |
| DiscoveryRegistry.NulKeyIsCut | src/tool/talosos_tool.cc:326 | A topic whose key holds a NUL is listed under the part before it. |
| DiscoveryRegistry.CollectList | python/talosos/commands/topic.py:647-663 | The loop over the output's lines reads one row per visible line. |
| DiscoveryRegistry.FieldsRead | python/talosos/commands/topic.py:650-662 | One column is a key, two are a key and nodes, three or more a key, a type and nodes; keys are shown behind a slash and nodes are what lies between commas. |
| DiscoveryRegistry.TakeLineIs | python/talosos/commands/topic.py:647 | A line ends at a line break, `\r\n` counting as one, or with the text. |
| DiscoveryRegistry.ListRoundTrip | python/talosos/commands/topic.py:647-663 | Reading the printed list gives back every row under its displayed name and no other, if and only if every row reads back, holds no line break and is not blank. |
| DiscoveryRegistry.TokensParse | src/tool/talosos_tool.cc:264-298 | The tokens of offers with clean names parse to what was offered. |
| DiscoveryRegistry.RegistryIs | src/tool/talosos_tool.cc:300-303 | The registry of offers names exactly the topics offered, with exactly the nodes that offer them. |
| DiscoveryRegistry.PipelineRoundTrip | python/talosos/commands/topic.py:629-663 | From resolving a topic to listing it: one row for a topic if and only if some offer names it, under its key behind a slash, with its first type and exactly its nodes, each once. |
| DiscoveryRegistry.TopicList | src/tool/talosos_tool.cc:258-329 | Collecting replies, printing and reading, run end to end, shows exactly the offers. |
| Timer.InvKept | include/talosos/timer.h:83-117 | Every step of the thread, the clock and the callers keeps the timing and cancellation invariant. |
| Timer.CallbackTimes | include/talosos/timer.h:99-117 | Callbacks never overlap, the n-th begins no earlier than begin plus n periods, at most one begins after the flag is set, a one-shot fires at most once. |
| Timer.DueIs | include/talosos/timer.h:100-115 | Deadlines do not drift: they are whole periods from the start. |
| Timer.CancelIsFinal | include/talosos/timer.h:83-94 | Once the Cancel that set the flag off the timer thread has returned, no callback is running and none ever begins. |
| Timer.AtMostOneLate | include/talosos/timer.h:101-108 | After the flag is set at most one more callback begins, and only if the thread had already left its wait. |
| Timer.CancelMakesProgress | include/talosos/timer.h:83-94 | A joining Cancel is never stuck: a thread step is always enabled and each brings the thread closer to its end. |
| Timer.SecondCancelExactly | include/talosos/timer.h:84-108 | After a Cancel that finds the flag set has returned, a callback is running or will still begin if and only if the thread has left its wait and not finished its callback. |
| Timer.SecondCancelDoesNotWait | include/talosos/timer.h:84-88 | For every valid timer there is a run in which such a Cancel returns while a callback is running. |
| Timer.Impl.Cancel | include/talosos/timer.h:83-94 | The locked block takes its cancel step; the caller goes on to join if and only if the flag was clear and it is not the timer thread. |
| Timer.Impl.Wake | include/talosos/timer.h:102-105 | A wake-up returns, calls back or waits on, exactly as flag and deadline say. |
| Timer.Impl.AfterCallback | include/talosos/timer.h:114-115 | The end of the loop body takes its step: stop after a one-shot, or the next deadline. |
| Fibonacci.Execute | examples/cpp/fibonacci/fibonacci_server.cc:23-51 | An addition overflows if and only if the 47th term is reached; otherwise every feedback is the Fibonacci prefix one longer than the last, a cancelled result a prefix, success exactly order+1 terms. |
| Fibonacci.TermByTerm | examples/cpp/fibonacci/fibonacci_server.cc:29-46 | One feedback per term added, the k-th already holding k+3 terms; every sequence is 0, 1 and then sums of the two terms before. |
| Fibonacci.InRange | examples/cpp/fibonacci/fibonacci_server.cc:29-46 | Every term of a finished result is an int32. |

## Left out

- Zenoh sessions, transport, liveliness queries and the Rust wrappers: calls into code that is not modelled; the network is the set of everything sent, replies and draws are parameters.
- Rate, Stopwatch and Tic/Toc (include/talosos/rate.h): straight-line arithmetic on a clock that would only add easy members.
- Memory limits: the writer's and reader's vectors are unbounded, so the failure of `resize` on a large length field and the overflow of `pos_ + n` in `size_t` are not modelled.
- Floating-point numbers: bit patterns on the wire, real numbers in the octree, so rounding there and `encode_voxels` are out.
- Shifts and ORs on bytes: written as division, multiplication and addition of powers of 256.
- CdrCodec.Reader.Read: the value is returned rather than filled in place, so what a partly read message holds after a throw is not stated, and neither is where the cursor is left.
- CdrPython.SequenceU8: runs on the reader object shared with the C++ model, since both sides keep a buffer and a cursor; UTF-8 decoding with replacement is out.
- CdrPython.CdrWriter.Write: Python has one writer per message, each a list of these calls; only that of the point cloud and its parts is written out. How a Python float is rounded to 32 bits, or overflows, is a parameter, and wrongly typed fields are out.
- Storage.Table.Find: returns the stored sample by value where the source returns a pointer into the node.
- Storage.Table.constructor: needs a positive number of bins, as the source's `% num_bins` does; storage_drop and failing allocation are out.
- StorageModel.HashString: takes `char` as signed, as on the usual targets; elsewhere that only moves keys between bins.
- ActionSafety.ResultSafety: needs fresh goal ids, which the source draws at random and the model makes the condition of registering.
- ActionSafety.AlwaysInv: covers one server with one construction and destruction; move assignment, and a worker that finds the server state gone, are out.
- ActionSafety.LostExactly: reading shared_self and creating the thread that takes it are one step, at the moment of the reading.
- ActionShutdown.ShutdownExactly: speaks of executions, and takes Finalize not to be called on a server under destruction; the joining itself, and a thread that is never joined because it was registered after the locked block, are out.
- ActionSafety.LateDuplicate: feedback messages and their callbacks carry no state of their own and are out, and so are the timeouts of WaitForResult.
- ActionObjects.ActionServer.AcceptGoal: locks are taken as given, one method per critical section; the threads themselves are steps of the protocol.
- ServiceClient::CallBytes: its comment promises the first reply and the code keeps the last one before the drop callback; it rests on the callback order of zenoh, so nothing is stated about it.
- FeatureScanner.ProcessFeatureDefines: lines are given already split and the evaluation of a condition is a parameter that may panic; unreadable lines, which end the input, are out.
- SplitGuide.SpansOk: text is characters, so panics on a slice inside a multi-byte character and the overflow of 32-bit brace and nesting counters are out; `is_alphanumeric` is a parameter.
- SplitGuideGroups.GroupTokens: the rules that choose a file for a record, their `used` marks and the writing of files are out.
- TfOrder.RenderExactly: Python's recursion limit, which ends the walk of a chain of about a thousand frames, is out; so it is in Octree.GenerateOctree.
- TfView.TfPanel.Tick: the window and the message sampler are out; the terminal version's time tag behind a frame is out.
- DiscoveryRegistry.PipelineRoundTrip: its conditions on the names offered (no marker segment, a named node, visible keys, no NUL, tab, comma or line break) are sufficient; its two halves are exact, in ParseExactly and ListRoundTrip.
- Discovery.BuildLiveKey: the key expression made of the text rewrites it to canonical form before it is declared, which is out.
- DiscoveryRegistry.TopicList: the mutex, timeouts and reply deadline of the tool, and text decoding between the two programs, are out.
- Timer.CallbackTimes: time is an integer that never runs backwards; exceptions from a callback are swallowed there and count as its end; moving a timer is out.
- Fibonacci.Execute: stops at the first overflow, which is undefined behaviour in the source; the sleep between terms is out.
- User interfaces, plotting, command-line parsing, workspace discovery, process launching, logging and code generation: plumbing.
