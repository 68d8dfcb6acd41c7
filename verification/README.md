# AimDB: verified model of its core algorithms

This project models, in Dafny, the algorithmic core of AimDB and proves what its code and documentation
promise of it. `dafny verify dfyconfig.toml` checks everything.

## What is modelled

- **Dependency graph and start order.** Kahn's algorithm over a multigraph of records, first-in first-out or
  with a seeded draw, with missing-input detection, the cycle report and the edges. The graph is built exactly
  when every input is registered and the relation is acyclic; order and report depend on registration list and
  seed only. (`SplitMix`, `Graph`, `GraphOrder`, `GraphFifo`, `GraphEdges`, `GraphBuild`, and the
  generic `Walks`, `Lists`)
- **XCDR1 codec.** Encoding and decoding of CORBA 3.3 Part 2 section 9.3 (CDR Transfer Syntax) as profiled by
  OMG DDS-XTypes 1.3 section 7.4.1 (encoding version 1), as functions of value or schema, bytes and position,
  and the two cursors as classes proved against them; and the bytes on the wire, by position and place value.
  (`Bytes`, `PlaceValues`, `Utf8`, `Cdr`, `CdrWire`, `CdrRoundTrip`, `CdrOrder`, `CdrCodec`)
- **Inbound routing.** Pattern parsing as the inverse of printing, key tables, the dispatch loop over whole runs,
  the reduction of subscriptions, the MQTT topic grammar, and the one-level wildcard grammar the router's tests
  use. (`TopicPatterns`, `TopicRoundTrip`, `ParseErrors`, `KeyTables`, `Routers`, `Strings`, `Subscriptions`, `Levels`, `Mqtt`,
  `MqttPatterns`, `MqttTopics`, `Plus`)
- **Build-info section and its download.** Image, parser, post-link region, the client's chunk loop against any
  peer, and the server's chunks. (`BuildInfo`, `BuildInfoWire`, `Hex`, `PostLinks`)
- **Watch cover.** What a build script watches of a repository. (`WatchTrees`)
- **Arm and await.** The update loop, and the server's write history beside it. (`Watches`)
- **Builder.** Configuring records, and the registry, validation, graph and collector phases of a build, and the
  inbound router, and links over MQTT from their topics to the keys messages carry. (`Registry`, `Mistakes`, `Builds`,
  `InboundRoutes`, `MqttLinks`)

## How it is modelled

- Objects whose methods update fields are classes (`SplitMix64`, `Writer`, `Serializer`, `Deserializer`,
  `KeyTable`, `Router`, `Watch`, `AimDbBuilder`); loops are methods with invariants. Each is proved against a
  specification function, and the properties are proved of that function.
- A growing vector, string or hash map is a `seq`, `string` or `map` that is reassigned. Caller storage for
  `ToSlice` and the image buffer of `Encode` are arrays written in place.
- A primitive value of the codec is its bit pattern; 32-bit length limits, 16-bit spans, 64-bit wrapping draws
  and the saturating drop counter are written out.
- A text is a sequence of characters, each one byte of the original, wherever positions matter. Text in the
  codec is a sequence of bytes with UTF-8 validity as a predicate.
- Callbacks, grammars, collectors, configuration closures, peers and file existence are function parameters,
  so every statement holds for all of them. A dispatch's callback only reports whether it succeeded.
- The peer of a download answers the k-th call as a function of k, offset and length. That covers any peer:
  one run makes each call once.
- A deadline is the number of items that arrive before it. A stream that has yielded all given items and not
  ended leaves the await loop waiting.

## Where the code and its documentation differ

- **Arming.** `watch.rs` says that no write falls between the baseline and the subscription. Updates stamped at
  or before the baseline are dropped, and the instance clock may stamp two writes alike
  (`aimdb-core/src/clock.rs:37-41`), so a write in the same tick as the value got is not reported
  (`Watches.SameTickIsMissed`). `Watches.NewIffStampMovesOn` gives the exact condition.
- **Covering.** `TopicGrammar::covers` may be conservative. A covering that is sound but not transitive can make
  every filter of a circle superfluous, and `subscriptions` then drops them all (`Subscriptions.CircleLosesAll`).
  `Subscriptions.NothingLostIffAcyclic` gives the exact condition.
- **Round trip.** A sequence of more empty elements than bytes follow its count is encoded but not decoded
  (`CdrRoundTrip.UnitListIsLost`). `CdrRoundTrip.PayloadRoundTripIff` gives the exact condition.

- **Watch cover.** `aimdb-build-info/src/build.rs:495-499` says that a directory is watched whole when no ignored
  path lies below it, and that elsewhere known files are watched one by one. A tracked file replaced by a
  directory is known beside the files in it: watched as a file, it is a directory watched whole, around other
  watched paths and perhaps ignored ones (`WatchTrees.ReplacedFileOverlaps`). `WatchTrees.NestedIffOverlap` and
  `WatchTrees.WatchedHoldsIgnoredIff` give the exact conditions.

The MQTT covering is conservative, as its trait allows, for one pair only: `+/#` takes what `#` takes
(`MqttTopics.PairIsNotCovered`, `MqttTopics.PatternCoversExactly`).

## Model

| member | source | states |
|---|---|---|
| `SplitMix.DrawnFromOneState` | aimdb-core/src/graph.rs:132-139 | the output mixing and the state step are undone by stated inverses: a draw comes from exactly one state, so every 64-bit value is drawn from one state and no two states draw alike |
| `SplitMix.SplitMix64.DrawBelow` | aimdb-core/src/graph.rs:142-144 | the drawn index is below the length, so removing it from the queue never misses; the state advances by one step |
| `SplitMix.ScaleOnto` | aimdb-core/src/graph.rs:142-144 | every index below the length is drawn by some 64-bit value, so no ready record is excluded by scaling |
| `SplitMix.IndexDrawn` | aimdb-core/src/graph.rs:132-144 | the index drawn is the next output times the length, divided by 2^64 and rounded down |
| `SplitMix.KnownOutputs` | aimdb-core/src/graph.rs:132-139 | the first three outputs from the seed zero, as published for this generator |
| `Graph.PendingZero` | aimdb-core/src/graph.rs:234-238 | an in-degree counting untaken input occurrences is zero exactly when all inputs have been taken |
| `Graph.PendingTake` | aimdb-core/src/graph.rs:251-259 | taking a record lowers a successor's count by the number of times it names that record, twice for a join naming it twice |
| `Graph.DrainReleases` | aimdb-core/src/graph.rs:251-259 | draining a taken record's adjacency list leaves exactly the pending counts for one more taken record, and queues exactly the released records in registration order |
| `Graph.ReleasedExactly` | aimdb-core/src/graph.rs:255-257 | the records queued after taking one are those whose last missing input it was, each once even when named twice |
| `Graph.OutputsEnough` | aimdb-core/src/graph.rs:251-254 | no adjacency list names a record more often than its in-degree at that moment, also for joins naming an input twice |
| `Graph.DrainNeverUnderflows` | aimdb-core/src/graph.rs:253-254 | every decrement along such a list finds a positive in-degree, so the unsigned subtraction never underflows |
| `GraphOrder.RestRemovesPick` | aimdb-core/src/graph.rs:243-248 | taking from the queue, by front or by swap-remove, removes exactly the picked record and no other |
| `GraphOrder.PickIs` | aimdb-core/src/graph.rs:242-248 | without a seed the first of the queue is taken, otherwise the one whose index is drawn |
| `GraphOrder.RestAt` | aimdb-core/src/graph.rs:243-248 | the queue closes up from the front without a seed, and with its last record where one was drawn |
| `GraphOrder.RootsExactly` | aimdb-core/src/graph.rs:234-238 | the initial queue holds exactly the records without inputs, once each |
| `GraphOrder.StepKeepsInv` | aimdb-core/src/graph.rs:242-261 | every step of Kahn's loop, seeded or not, keeps: taken and queued records are distinct and are exactly those whose inputs are all taken, and each taken record follows its inputs |
| `GraphOrder.StartOrderInv` | aimdb-core/src/graph.rs:242-261 | the final order satisfies the loop's invariant with an empty queue: a record is in it exactly when its inputs are, and comes after them |
| `GraphOrder.StuckHasStuckInput` | aimdb-core/src/graph.rs:263-270 | every record left out has an input that is left out |
| `GraphOrder.CycleNeverTaken` | aimdb-core/src/graph.rs:242-263 | no record of a cycle is ever taken, for any order that respects inputs |
| `GraphOrder.OmittedIffBelowCycle` | aimdb-core/src/graph.rs:242-270 | a registered record is left out of the order exactly when it lies on or downstream of a cycle, for every seed |
| `GraphOrder.OrderIsPermutation` | aimdb-core/src/graph.rs:263-276 | the order is complete exactly when the transform relation is acyclic, and is then a permutation of the keys |
| `GraphOrder.InputsStartFirst` | aimdb-core/src/graph.rs:164-174 | for every seed or none, every input of a started record starts before it |
| `GraphFifo.UnseededIsFifo` | aimdb-core/src/graph.rs:164-170 | without a seed, whichever of two started records first had all its inputs started comes first, and of two that had them at once the one registered first |
| `GraphEdges.BuildEdges` | aimdb-core/src/graph.rs:277-338 | the edges node by node: origin, outbound links named by scheme, taps |
| `GraphEdges.EdgesAreInputs` | aimdb-core/src/graph.rs:297-311 | there are as many edges from a record to another as the second names the first among its inputs |
| `GraphEdges.EdgeIsFeed` | aimdb-core/src/graph.rs:277-338 | every edge with both ends set joins an input to the record that names it |
| `GraphEdges.EdgesAre` | aimdb-core/src/graph.rs:277-338 | the edges are, record by record in registration order: the edges into it by its origin, one per outbound link named by what stands before the first ://, and one per tap, numbered |
| `GraphBuild.CollectTransforms` | aimdb-core/src/graph.rs:184-197 | the transforms with their inputs, in registration order |
| `GraphBuild.TransformsExactly` | aimdb-core/src/graph.rs:184-197 | a node is among the collected transforms exactly when it is registered and is a transform or a join |
| `GraphBuild.FirstMissingExactly` | aimdb-core/src/graph.rs:199-209 | an input is reported exactly when one is unregistered, and it is the first such in registration order |
| `GraphBuild.CheckInputs` | aimdb-core/src/graph.rs:199-209 | the nested validation loop returns that first missing input, or none |
| `GraphBuild.BuildDegrees` | aimdb-core/src/graph.rs:211-227 | after the adjacency loops every in-degree is the number of input occurrences and every adjacency list the occurrences of its key, in registration order |
| `GraphBuild.CountsAreDegrees` | aimdb-core/src/graph.rs:211-227 | those counts are the pending counts with nothing taken, whatever order the key set was iterated in |
| `GraphBuild.InitialQueue` | aimdb-core/src/graph.rs:229-238 | the queue is seeded in registration order |
| `GraphBuild.Release` | aimdb-core/src/graph.rs:251-260 | the neighbour loop decrements without underflow and appends exactly the freed records |
| `GraphBuild.StartLoop` | aimdb-core/src/graph.rs:229-261 | the loop terminates; its order is the function of registration list and seed that StartOrder gives, and each final in-degree counts the untaken input occurrences |
| `GraphBuild.TakeIsSafe` | aimdb-core/src/graph.rs:242-261 | taking the next record is safe: its adjacency entries are covered by in-degrees, and invariant and measure carry over |
| `GraphBuild.CycleRecordsExactly` | aimdb-core/src/graph.rs:263-275 | the cycle report holds exactly the registered records on or downstream of a cycle |
| `GraphBuild.ReportedIffOmitted` | aimdb-core/src/graph.rs:263-275 | reported and started records partition the registered ones, for every seed |
| `GraphBuild.CycleReportNotEmpty` | aimdb-core/src/graph.rs:263-275 | a cyclic graph gives a nonempty report |
| `GraphFifo.CycleReportInOrder` | aimdb-core/src/graph.rs:263-275 | the report lists its records in registration order |
| `GraphBuild.ReportedWaits` | aimdb-core/src/graph.rs:263-275 | every reported record has an input that is reported too |
| `GraphBuild.PositiveIffBelowCycle` | aimdb-core/src/graph.rs:265-270 | after the loop an in-degree is positive exactly for the records on or downstream of a cycle |
| `GraphBuild.ReportCycle` | aimdb-core/src/graph.rs:263-275 | the report lists the records with a positive in-degree in registration order |
| `GraphBuild.EdgesForward` | aimdb-core/src/graph.rs:277-341 | in an acyclic graph every edge with both ends set goes forward in the start order |
| `GraphBuild.BuildAndValidateSeeded` | aimdb-core/src/graph.rs:171-348 | on distinct keys: success exactly when every input is registered and the relation is acyclic; then the order is a permutation of the keys and edges go forward; otherwise the first missing input, or the cycle report |
| `GraphBuild.TwiceUnderflows` | aimdb-core/src/graph.rs:242-261 | with a key registered twice it is queued twice, and the second time its neighbour's in-degree would go below zero: why keys must be distinct |
| `GraphBuild.BuildAndValidate` | aimdb-core/src/graph.rs:160-162 | the unseeded construction gives the first-in first-out start order |
| `Bytes.LeRoundTrip` | aimdb-cdr/src/ser.rs:69-72 | a number survives its little-endian bytes when it fits them |
| `Bytes.FromLeRoundTrip` | aimdb-cdr/src/de.rs:50-55 | bytes survive being read as a little-endian number |
| `Cdr.PadAligns` | aimdb-cdr/src/ser.rs:64-67 | the padding reaches the next multiple of 2, 4 or 8 |
| `CdrWire.PrimWire` | aimdb-cdr/src/ser.rs:96-137 | each primitive type is written in its 1, 2, 4 or 8 bytes: fewer zeros than that up to the next multiple, then the bytes of the number, byte k being bits / 256^k % 256 |
| `CdrWire.PrimRange` | aimdb-cdr/src/ser.rs:96-137 | the values of a primitive type are the bit patterns below 2^8, 2^16, 2^32 or 2^64 |
| `CdrWire.LeafWire` | aimdb-cdr/src/ser.rs:91-175 | a bool is a byte 1 or 0; a text its length with the NUL in four bytes, the text and the NUL; bytes their length and themselves; a unit nothing; a newtype its content; lengths of 2^32 and unsupported values are errors |
| `CdrWire.TupleWire` | aimdb-cdr/src/ser.rs:193-292 | the fields of a tuple stand one after another, each encoded where the one before ends; the first that fails gives the error |
| `CdrWire.SeqWire` | aimdb-cdr/src/ser.rs:188-246 | a sequence is its announced length in four bytes and then its elements in the same way |
| `CdrWire.PayloadWire` | aimdb-cdr/src/lib.rs:19-49 | a payload is 00 01 00 00 and the body encoded from position zero |
| `CdrWire.PrimRead` | aimdb-cdr/src/de.rs:12-69 | each primitive type is read from its 1, 2, 4 or 8 bytes at the next multiple of that, each byte with its place value in either order, or the input ends too soon |
| `CdrWire.BoolRead` | aimdb-cdr/src/de.rs:100-106 | a bool is a byte 0 or 1; any other byte is an error naming it |
| `CdrWire.TextRead` | aimdb-cdr/src/de.rs:72-90 | a text is four bytes of length and that many bytes: none for zero, otherwise UTF-8 and a NUL, with an error for each way to fail, in order |
| `CdrWire.BytesRead` | aimdb-cdr/src/de.rs:160-163 | a byte string is four bytes of length, at most as many as follow, and that many bytes |
| `CdrWire.WrapRead` | aimdb-cdr/src/de.rs:173-191 | a unit takes no bytes, a newtype those of its content, and unsupported types are refused |
| `CdrWire.TupleRead` | aimdb-cdr/src/de.rs:201-225 | the fields of a tuple are read one after another; the first that fails gives the error |
| `CdrWire.SeqRead` | aimdb-cdr/src/de.rs:193-199 | a sequence is four bytes of count, refused when it exceeds the bytes that follow, and then that many elements |
| `CdrWire.PayloadRead` | aimdb-cdr/src/lib.rs:57-68 | the first two of four header bytes choose the byte order, 00 01 little and 00 00 big; other ones are an error naming them |
| `Utf8.Utf8Iff` | aimdb-cdr/src/de.rs:80-90 | bytes pass as UTF-8 if and only if they are the encoding of some sequence of Unicode scalar values |
| `CdrRoundTrip.RoundTripAt` | aimdb-cdr/src/ser.rs:80-292 | at any position, what a value encodes to decodes to it, ending where the encoding ends, exactly when every count fits the bytes after it |
| `CdrRoundTrip.PayloadRoundTripIff` | aimdb-cdr/src/lib.rs:42-68 | a payload followed by any bytes decodes to its value if and only if every sequence has at most as many elements as bytes remain after its count; otherwise it is an unexpected end |
| `CdrRoundTrip.ElementsTakeBytesFit` | aimdb-cdr/src/de.rs:72-78 | when sequence elements take at least one byte each, every count fits, whatever follows |
| `CdrRoundTrip.PayloadRoundTrip` | aimdb-cdr/src/lib.rs:42-68 | every supported value of a type whose sequence elements take at least one byte comes back from its payload, whatever follows it |
| `CdrRoundTrip.UnitListIsLost` | aimdb-cdr/src/de.rs:72-78 | a list of five unit values is encoded but refused by the decoder |
| `CdrRoundTrip.FitsEventually` | aimdb-cdr/src/de.rs:72-78 | for every encoded value enough trailing bytes make its counts fit |
| `CdrRoundTrip.PrefixFree` | aimdb-cdr/src/ser.rs:80-292 | for values of one type at one position, no encoding is a proper prefix of another's, and equal encodings mean equal values |
| `CdrRoundTrip.EncodeShift` | aimdb-cdr/src/ser.rs:64-72 | a value's encoding depends on its position only modulo eight |
| `CdrOrder.DecodeLocal` | aimdb-cdr/src/de.rs:38-90 | a decode depends only on the bytes up to where it ends, and on the input's length |
| `CdrOrder.MirrorDecodes` | aimdb-cdr/src/de.rs:12-55 | reversing every integer a little-endian decode reads gives bytes that decode to the same outcome in big-endian order, errors included |
| `CdrOrder.PayloadByteOrder` | aimdb-cdr/src/lib.rs:55-68 | any body means the same under the little-endian header as its mirror image under the big-endian one |
| `CdrOrder.EncodableIff` | aimdb-cdr/src/ser.rs:74-78 | encoding succeeds exactly when every length fits 32 bits, every sequence announces its length, and nothing unsupported occurs; the position does not matter |
| `CdrOrder.DecodedHas` | aimdb-cdr/src/de.rs:93-250 | whatever is decoded is a value of the type asked for and can be encoded again |
| `CdrCodec.Writer.WriteAll` | aimdb-cdr/src/ser.rs:22-40 | bytes are appended if they fit, otherwise nothing is written; bytes before and behind are untouched |
| `CdrCodec.Writer.Slice` | aimdb-cdr/src/ser.rs:16-20 | a writer over a slice starts with nothing written |
| `CdrCodec.Serializer.Write` | aimdb-cdr/src/ser.rs:58-62 | the position advances by what was written, and only then |
| `CdrCodec.Serializer.Align` | aimdb-cdr/src/ser.rs:64-67 | zero padding to the alignment is written, all or none |
| `CdrCodec.Serializer.Primitive` | aimdb-cdr/src/ser.rs:69-72 | padding and the little-endian bytes, as EncodePrim at the old position |
| `CdrCodec.Serializer.Length` | aimdb-cdr/src/ser.rs:74-78 | a length of 2^32 or more is an overflow; otherwise an aligned 32-bit prefix |
| `CdrCodec.Serializer.SerializeStr` | aimdb-cdr/src/ser.rs:139-143 | length with the NUL counted, the text, the NUL |
| `CdrCodec.Serializer.Serialize` | aimdb-cdr/src/ser.rs:80-235 | for every value and writer the serializer writes Encode at the current position, and succeeds exactly when that is defined and fits |
| `CdrCodec.Serializer.SerializeSeq` | aimdb-cdr/src/ser.rs:188-191 | an unannounced length is refused; otherwise the prefix and the elements |
| `CdrCodec.Serializer.SerializeAll` | aimdb-cdr/src/ser.rs:238-292 | elements and fields are written one after another, stopping at the first error |
| `CdrCodec.ToSlice` | aimdb-cdr/src/lib.rs:27-38 | into a buffer: succeeds exactly when the buffer holds the payload of the growing form, returns its length, writes exactly it and leaves the rest untouched; otherwise BufferTooSmall |
| `CdrCodec.ToNewVec` | aimdb-cdr/src/lib.rs:42-49 | the growing form returns the payload the specification gives, or its error |
| `CdrCodec.Deserializer.Take` | aimdb-cdr/src/de.rs:38-43 | the bytes at the cursor, or an unexpected end without moving it |
| `CdrCodec.Deserializer.Align` | aimdb-cdr/src/de.rs:45-48 | the cursor moves to the next multiple, if that is inside the input |
| `CdrCodec.Deserializer.Primitive` | aimdb-cdr/src/de.rs:50-64 | an aligned integer in the header's byte order |
| `CdrCodec.Deserializer.ReadLength` | aimdb-cdr/src/de.rs:72-78 | a count larger than the remaining bytes is refused |
| `CdrCodec.Deserializer.ReadStr` | aimdb-cdr/src/de.rs:80-90 | text up to a final NUL that must be valid UTF-8; a length of zero is the empty text |
| `CdrCodec.Deserializer.ReadBool` | aimdb-cdr/src/de.rs:100-106 | only 0 and 1 are booleans |
| `CdrCodec.Deserializer.Deserialize` | aimdb-cdr/src/de.rs:93-250 | on every input and schema decoding ends, the cursor never goes back or passes the end, and the outcome is the specified one |
| `CdrCodec.Deserializer.Elements` | aimdb-cdr/src/de.rs:252-272 | fixed-count access decodes exactly count items, stopping at the first error |
| `CdrCodec.FromBytesPayload` | aimdb-cdr/src/lib.rs:55-68 | the header selects the byte order, any other header is an error, and the body is decoded from position zero |
| `KeyTables.KeyTable.Key` | aimdb-core/src/inbound_key.rs:60-85 | a known value keeps its key; a new one gets the next, up to the capacity; a refusal is counted, saturating; index and list stay inverse |
| `KeyTables.AssignedIsSound` | aimdb-core/src/inbound_key.rs:60-85 | values in a table stay distinct and within capacity; a value's key stands for it; a refusal means the table is full and the value unknown |
| `KeyTables.KeysStay` | aimdb-core/src/inbound_key.rs:60-85 | a key given once stands for its value after any further lookups, and after a refusal the table no longer changes |
| `KeyTables.SameKeyIffSameValue` | aimdb-core/src/inbound_key.rs:60-85 | over any run of lookups two keys are equal exactly when the values are, and none exceeds the capacity |
| `KeyTables.RefusedStaysRefused` | aimdb-core/src/inbound_key.rs:60-85 | a value refused once is refused ever after |
| `KeyTables.KeysAreDense` | aimdb-core/src/inbound_key.rs:60-85 | a new key is one more than the number of values keyed before it |
| `KeyTables.DroppedCountsRefusals` | aimdb-core/src/inbound_key.rs:68-79 | after any run of lookups the drop counter is the number of refused ones, or its 32-bit maximum if there were more |
| `Routers.OfferKeeps` | aimdb-core/src/router.rs:98-105 | offering a message to one route only appends to tables, keeps them sound, and an ingested message's key stands for the captured value |
| `Routers.OfferGrows` | aimdb-core/src/router.rs:97-105 | a table changes only when its route is called with a value that had no key, and then by that value alone |
| `Routers.RouteKeeps` | aimdb-core/src/router.rs:132-181 | the same for a dispatch over all routes |
| `Routers.RouteReaches` | aimdb-core/src/router.rs:143-166 | a route's callback runs for a message exactly when the route matches and, if keyed, its captured value has a key or there is room for one |
| `Routers.CallsInOrder` | aimdb-core/src/router.rs:143-156 | the calls of a dispatch are for its message, with each route's own names and spans, in route order and at most one per route |
| `Routers.RunKeeps` | aimdb-core/src/router.rs:132-181 | over any run of dispatches tables only grow, stay sound, and every ingested message's key keeps standing for its captured value |
| `Routers.RunSameKeyIffSameValue` | aimdb-core/src/router.rs:132-181 | over any run, through any keyed routes sharing a table, two ingested messages carry the same key exactly when they captured the same value; keys stay within the capacity |
| `Routers.KeyedValueByName` | aimdb-core/src/topic_pattern.rs:152-158 | a keyed route's callback reads the keyed value by the capture's name |
| `Routers.Router.Key` | aimdb-core/src/router.rs:97-105 | the key a message gets at a route, and the tables after that |
| `Routers.Router.Offer` | aimdb-core/src/router.rs:143-166 | one route's part of a dispatch: whether it matched, the one call made, the tables after it |
| `Routers.Router.Route` | aimdb-core/src/router.rs:132-181 | a dispatch offers the message to every route in order with fresh spans; calls and tables are the specified ones, and the outcome logged says whether a callback succeeded or a route matched |
| `MqttTopics.RouteMatchesIff` | aimdb-core/src/router.rs:85-96 | a route compiled by the MQTT grammar takes exactly the topics delivered for its filter, of any length without wildcards and of at most 65535 bytes with, and with the spans its pattern writes |
| `MqttTopics.CalledIffDelivered` | aimdb-core/src/router.rs:132-166 | over a whole dispatch an unkeyed route is called if and only if the topic is one delivered for its filter |
| `MqttTopics.UnmatchedIffUndelivered` | aimdb-core/src/router.rs:168-180 | no route is found if and only if the topic is delivered for no route's filter |
| `Plus.RouteMatchesIff` | aimdb-core/src/router.rs:85-96 | the same for the one-level wildcard grammar |
| `Strings.LessTransitive` | aimdb-core/src/router.rs:191 | the order the filters are sorted by is transitive |
| `Strings.LessTotal` | aimdb-core/src/router.rs:191 | and total |
| `Strings.StrictUnique` | aimdb-core/src/router.rs:191-194 | a strictly sorted list is determined by its elements, so the resource ids do not depend on route order |
| `Strings.SortSorts` | aimdb-core/src/router.rs:191 | sorting sorts |
| `Subscriptions.ResourceIds` | aimdb-core/src/router.rs:187-195 | exactly the routes' filters, strictly sorted, so each once |
| `Subscriptions.DroppedIffBeaten` | aimdb-core/src/router.rs:199-212 | a resource id is dropped exactly when another one covers it and is not covered back, or sorts first |
| `Subscriptions.KeptSorted` | aimdb-core/src/router.rs:199-212 | the subscribed filters are in strict order, so each once |
| `Subscriptions.Minimal` | aimdb-core/src/router.rs:199-212 | no subscribed filter covers another, for every covering relation |
| `Subscriptions.UnbackedBelowCycle` | aimdb-core/src/router.rs:199-212 | an id that hangs on no subscribed filter lies on or below a circle of filters beating one another |
| `Subscriptions.CycleDropsAll` | aimdb-core/src/router.rs:199-212 | filters that beat one another in a circle are all dropped |
| `Subscriptions.NothingLostIffAcyclic` | aimdb-core/src/router.rs:199-212 | for every covering: each resource id of every router hangs on a subscribed filter if and only if no filters beat one another in a circle; and only then is some filter subscribed whenever there are routes |
| `Subscriptions.TransitiveIsAcyclic` | aimdb-core/src/topic_pattern.rs:169-172 | a transitive covering has no such circle |
| `Subscriptions.EveryIdIsCovered` | aimdb-core/src/router.rs:199-212 | with a reflexive, transitive covering every resource id is covered by a subscribed filter |
| `Subscriptions.EveryIdIsCoveredIff` | aimdb-core/src/router.rs:199-212 | every resource id of every list is covered by a subscribed filter if and only if the covering is reflexive and, of three filters beating one another in turn, the first covers the last |
| `Subscriptions.EveryTopicIsDelivered` | aimdb-core/src/router.rs:199-212 | under a sound covering without circles every topic a route's filter takes is taken by a subscribed filter |
| `Subscriptions.CircleLosesAll` | aimdb-core/src/topic_pattern.rs:169-172 | a reflexive, sound but non-transitive covering of three filters that match every topic leaves no subscription |
| `TopicPatterns.Parse` | aimdb-core/src/topic_pattern.rs:46-98 | the parsing loop computes the recursive parse: parts, or the first error |
| `TopicRoundTrip.ParseSound` | aimdb-core/src/topic_pattern.rs:46-98 | an accepted topic's parts are canonical and print back to it |
| `TopicRoundTrip.ParseComplete` | aimdb-core/src/topic_pattern.rs:46-98 | the print of any canonical part list parses to that list |
| `TopicRoundTrip.ParseIffPrint` | aimdb-core/src/topic_pattern.rs:46-98 | a topic is accepted as given parts if and only if they are canonical and spell it |
| `ParseErrors.RefusedIff` | aimdb-core/src/topic_pattern.rs:46-98 | a topic is refused for a reason if and only if canonical parts spell what stands before its first fault and the fault is that one: a brace closing nothing, one never closed, or a capture with no name, a bad name, a name used before or too many before it |
| `TopicPatterns.ScanSound` | aimdb-core/src/topic_pattern.rs:51-61 | the scan for braces cuts the rest of the topic into text, capture body and remainder without loss |
| `Levels.CutAppend` | aimdb-core/src/topic_pattern.rs:245-250 | splitting a concatenation at slashes joins the last level of the first with the first of the second |
| `Levels.SplitInjective` | aimdb-core/src/topic_pattern.rs:249-252 | different topics have different levels |
| `Levels.SplitIs` | aimdb-mqtt-connector/src/grammar.rs:54-62 | splitting, in full: a text without a slash is one level, and a slash separates the levels before it from those after it |
| `Levels.LevelAt` | aimdb-core/src/topic_pattern.rs:282-292 | level i is the stretch of the topic at the offset the matching loop has counted to |
| `Plus.Compile` | aimdb-core/src/topic_pattern.rs:237-261 | compiling pushes texts and a plus per capture and records the level each capture stands in |
| `Plus.Matches` | aimdb-core/src/topic_pattern.rs:278-294 | the matching loop compares literal levels in order and writes spans as 16-bit numbers until one differs |
| `Plus.MatchIffTakes` | aimdb-core/src/topic_pattern.rs:278-294 | a compiled filter matches exactly the topics with the same level count that agree on every literal level |
| `Plus.LiteralMatchesItself` | aimdb-core/src/topic_pattern.rs:275-277 | a filter reported literal matches only itself, so comparing it as a string is right |
| `Plus.MatchesIffReads` | aimdb-core/src/topic_pattern.rs:237-294 | for patterns whose captures are whole levels: a topic matches if and only if some slash-free values put for the captures spell it |
| `Plus.SpansCutValues` | aimdb-core/src/topic_pattern.rs:282-292 | each span of a matched topic under 65536 bytes cuts out exactly its capture's value, with no truncation |
| `Plus.CoversExactly` | aimdb-core/src/topic_pattern.rs:263-268 | one compiled pattern's filter covers another's if and only if it matches every topic the other matches |
| `Plus.SubscriptionsSuffice` | aimdb-core/src/router.rs:199-212 | for routes compiled by this grammar, every topic any route matches is delivered for some subscribed filter |
| `Levels.SplitJoin` | aimdb-mqtt-connector/src/grammar.rs:97-106 | the levels joined with slashes split into the same levels |
| `Levels.SplitOnceIs` | aimdb-mqtt-connector/src/grammar.rs:160-163 | taking levels off one by one gives the levels of the whole topic |
| `Mqtt.Compile` | aimdb-mqtt-connector/src/grammar.rs:38-107 | the loops over parts, segments and levels give the specified levels and filter, or the first error |
| `MqttPatterns.CompilesIff` | aimdb-mqtt-connector/src/grammar.rs:38-95 | a pattern compiles if and only if every level of it, as written, is a whole wildcard or capture, or text without either, with # and {name..} in the last one only |
| `MqttPatterns.FirstMisfit` | aimdb-mqtt-connector/src/grammar.rs:69-95 | otherwise the error is that of the first level that does not fit |
| `MqttPatterns.CompileFails` | aimdb-mqtt-connector/src/grammar.rs:54-95 | why a pattern does not compile, by its levels as written: two captures in one, or else the fault of the first level at fault, a capture beside text, a wildcard inside text, or one for the rest before the end |
| `MqttPatterns.CompiledLevels` | aimdb-mqtt-connector/src/grammar.rs:38-95 | the compiled levels are the levels of the pattern as written, each capture with its number in order and its kind |
| `MqttTopics.CompiledProper` | aimdb-mqtt-connector/src/grammar.rs:97-106 | the filter has one level for each compiled level, with wildcards whole and # last |
| `Mqtt.Matches` | aimdb-mqtt-connector/src/grammar.rs:140-182 | the matching loop, level by level off the rest of the topic, gives the specified answer and spans |
| `MqttTopics.MatchIffDelivers` | aimdb-mqtt-connector/src/grammar.rs:140-182 | a compiled pattern matches exactly the topics MQTT 3.1.1 section 4.7 delivers for its filter: + any one level, # any number also none, no leading wildcard for $ topics |
| `MqttTopics.LiteralMatchesItself` | aimdb-mqtt-connector/src/grammar.rs:136-138 | a pattern reported literal matches only its own filter |
| `MqttPatterns.SpansCutGiven` | aimdb-mqtt-connector/src/grammar.rs:140-182 | in a topic under 65536 bytes the span of every capture of a match cuts out exactly what its level is given |
| `MqttPatterns.RestFollows` | aimdb-mqtt-connector/src/grammar.rs:147-156 | what {name..} is given is all that follows the levels before it and their slashes |
| `Mqtt.Covers` | aimdb-mqtt-connector/src/grammar.rs:109-128 | the loop over both filters' levels decides the covering |
| `MqttTopics.CoversIff` | aimdb-mqtt-connector/src/grammar.rs:109-128 | the covering without its loop: level counts, each level before #, and the first level's $ |
| `MqttTopics.CoversIsSound` | aimdb-mqtt-connector/src/grammar.rs:109-128 | the covering is reflexive, transitive and sound for delivery, for all texts |
| `MqttTopics.PatternCoversExactly` | aimdb-mqtt-connector/src/grammar.rs:109-182 | one compiled pattern's filter covers another's if and only if it matches every topic the other matches, except for +/# and # |
| `MqttTopics.PairIsNotCovered` | aimdb-mqtt-connector/src/grammar.rs:109-128 | those two take the same topics, and the covering misses it |
| `MqttTopics.SubscriptionsSuffice` | aimdb-core/src/router.rs:199-212 | for routes compiled by the MQTT grammar, every topic any route matches is delivered for some subscribed filter |
| `BuildInfo.Parse` | aimdb-build-info/src/lib.rs:141-192 | parsing succeeds exactly when magic, format, header lengths and size agree and the whole section is there; and for each of the four errors exactly which bytes give it |
| `BuildInfoWire.ParseReads` | aimdb-build-info/src/lib.rs:136-192 | by byte position and place value: parsing succeeds exactly when the magic, format one and the five header numbers are as they must be, and cuts payload and region out at the positions they give, also behind a longer header |
| `BuildInfo.Encode` | aimdb-build-info/src/build.rs:371-400 | the buffer filled in place is the image: fields, payload, zero padding, erased region; payloads over 4 KiB and sections over 64 KiB are refused |
| `BuildInfoWire.ImageBytes` | aimdb-build-info/src/build.rs:371-400 | every byte of an image: magic, format, lengths and offsets as four-byte numbers, the payload from byte 32, zeros up to the first multiple of eight, and ones to the end |
| `BuildInfo.FieldsRead` | aimdb-build-info/src/lib.rs:141-165 | the header fields written are the ones read, from anything that starts with them |
| `BuildInfo.ParsesFront` | aimdb-build-info/src/lib.rs:141-192 | whatever region and further bytes follow an encoded front, the section is read back |
| `BuildInfo.ImageRoundTrip` | aimdb-build-info/src/lib.rs:111-192 | an image followed by any bytes parses to its payload and an erased region of the length asked for, whose state is none, malformed or erased by that length |
| `BuildInfo.RestDoesNotMatter` | aimdb-build-info/src/lib.rs:139-192 | a parsed section is unchanged by whatever bytes stand after its total length |
| `BuildInfo.PrefixFails` | aimdb-build-info/src/lib.rs:139-192 | every shorter prefix of a section fails: without magic below eight bytes, truncated otherwise |
| `BuildInfo.WrittenIff` | aimdb-build-info/src/lib.rs:111-127 | a region counts as written with given data if and only if it starts with that data's length and bytes |
| `BuildInfoWire.RegionIs` | aimdb-build-info/src/lib.rs:111-127 | each of the four states of a region by its first bytes |
| `BuildInfo.PatchedImage` | aimdb-build-info/src/lib.rs:111-192 | data with room written over the start of an image's region is read back, and the payload stays |
| `Hex.DecodesIff` | aimdb-client/src/engine.rs:542-561 | text decodes exactly when it is an even number of hex digits of either case, to half as many bytes |
| `Hex.DecodeEncode` | aimdb-core/src/remote/instance.rs:121-129 | the bytes survive the server's hex |
| `Hex.EncodeDecode` | aimdb-client/src/engine.rs:542-561 | decoding and encoding again only makes the letters lower case |
| `Hex.DigitValues` | aimdb-client/src/engine.rs:543-550 | the sixteen digits and their values, in either case, and no other character |
| `Hex.EncodeAt` | aimdb-core/src/remote/instance.rs:121-129 | each byte is written as its two digits, the high half first |
| `Hex.DecodeFails` | aimdb-client/src/engine.rs:551-561 | an odd number of characters and a character that is no digit are told apart |
| `PostLinks.CheckChunk` | aimdb-client/src/engine.rs:502-540 | a chunk is accepted exactly when total, offset, digit count, hex and length are all as asked for; then its bytes are the decoded ones |
| `PostLinks.PostLink` | aimdb-client/src/engine.rs:366-388 | the download loop terminates against any peer with the specified outcome and number of calls |
| `PostLinks.FewCalls` | aimdb-client/src/engine.rs:366-388 | against any peer a download makes at most as many calls as bytes were promised first, and at least one |
| `PostLinks.DownloadIff` | aimdb-client/src/engine.rs:366-388 | data comes back if and only if the peer's answers, each for what was missing then and of the same total, together have exactly the promised length; it is those bytes, fewer than a section holds |
| `PostLinks.NoneIff` | aimdb-client/src/engine.rs:366-381 | nothing comes back if and only if some call is answered not found and all answers before it were accepted and left bytes missing |
| `PostLinks.CallFailsIff` | aimdb-client/src/engine.rs:366-382 | a download fails as refused, or as undecodable, if and only if such a call is |
| `PostLinks.ChunkFailsIff` | aimdb-client/src/engine.rs:366-388 | any other failure is that of the first chunk that breaks a rule, and of the first rule it breaks, in the code's order |
| `PostLinks.HonestDownload` | aimdb-client/src/engine.rs:366-388 | a peer serving a fixed byte string in nonempty chunks of its own choice gives that string |
| `PostLinks.ServerServes` | aimdb-core/src/remote/instance.rs:84-100 | the server's chunk replies are honest |
| `PostLinks.ReplyIs` | aimdb-core/src/remote/instance.rs:84-100 | for every offset and length: the bytes from there on, as many as asked for, at most 1024, or none past the end, with the total; not found unless data was written |
| `PostLinks.WrittenIsDownloaded` | aimdb-core/src/remote/instance.rs:84-100 | data written into an image's region is what the client downloads from a server holding that image |
| `PostLinks.UnwrittenIsNone` | aimdb-core/src/remote/instance.rs:84-100 | from an image nobody wrote to the client gets nothing |
| `WatchTrees.Trimmed` | aimdb-build-info/src/build.rs:521-522 | the longest front of the path that does not end in a slash: only slashes are removed |
| `WatchTrees.UncleanSet` | aimdb-build-info/src/build.rs:519-527 | the nested loop computes the top and every directory above an ignored path |
| `WatchTrees.CleanDir` | aimdb-build-info/src/build.rs:529-534 | the first, so the shortest, directory above a file that is not unclean, or none if all are |
| `WatchTrees.Watch.Path` | aimdb-build-info/src/build.rs:421-427 | a path is put on the list once |
| `WatchTrees.Watch.WatchTree` | aimdb-build-info/src/build.rs:504-548 | the list grows by the targets of the known files that exist, in order and each once, then the index; nothing changes when the files cannot be listed |
| `WatchTrees.NotedWhich` | aimdb-build-info/src/build.rs:529-539 | a path is on the list afterwards exactly when it was before or is the existing target of a known file |
| `WatchTrees.NotedOnly` | aimdb-build-info/src/build.rs:529-539 | nothing else is put on the list |
| `WatchTrees.WatchTreeWhich` | aimdb-build-info/src/build.rs:504-548 | a directive is on the list afterwards exactly when it was before, or is the existing target of a known file below the top, or is the existing index |
| `WatchTrees.WatchTreeGrows` | aimdb-build-info/src/build.rs:504-548 | a run leaves the list as it was in front and grows it at the end, with the index last |
| `WatchTrees.EveryFileIsCovered` | aimdb-build-info/src/build.rs:495-539 | every known file that exists, with its directories, is watched itself or with a directory above it |
| `WatchTrees.TopMost` | aimdb-build-info/src/build.rs:495-539 | a directory is watched for a file exactly when some directory above the file is clean; it is clean, and every directory above it is unclean |
| `WatchTrees.InsideIff` | aimdb-build-info/src/build.rs:529-539 | what is watched for one file lies above what is watched for another if and only if the first file is a path above the second that is unclean and watched as itself |
| `WatchTrees.NestedIffOverlap` | aimdb-build-info/src/build.rs:495-539 | over a whole run: some watched path lies below another one if and only if two known files overlap like that |
| `WatchTrees.ReplacedFileOverlaps` | aimdb-build-info/src/build.rs:495-539 | a tracked file replaced by a directory with a known and an ignored file: two watched paths, one inside the other, and the outer one holds the ignored path |
| `WatchTrees.WatchedHoldsIgnoredIff` | aimdb-build-info/src/build.rs:495-539 | for every known file: what is watched for it holds an ignored path if and only if it is itself ignored, or is the file itself above a listed path |
| `WatchTrees.HoldsNoIgnored` | aimdb-build-info/src/build.rs:495-539 | when the file is neither ignored nor above a listed path, what is watched for it holds no ignored path |
| `Watches.AwaitUpdates` | aimdb-client/src/watch.rs:108-159 | for every stream, baseline, count, deadline and callback the loop hands on the first count new updates that arrive in time, in order, and ends as specified |
| `Watches.OkIffCountReached` | aimdb-client/src/watch.rs:108-159 | the status is Ok exactly when the count was reached or was zero |
| `Watches.WaitingEnds` | aimdb-client/src/watch.rs:108-159 | how waiting ends, in full: the callback's failure, the count, the deadline, no more items, the stream's error or its end, in that order of precedence, with what was received, wanted and lost |
| `Watches.Arm` | aimdb-client/src/watch.rs:82-99 | arming returns a refusal, or the stream with nothing taken off it and the current stamp as baseline |
| `Watches.StepKeepsInv` | aimdb-client/src/watch.rs:73-80 | every write, subscribe and get keeps: stamps nondecreasing, everything from some write before the get on delivered in order |
| `Watches.RunKeepsInv` | aimdb-client/src/watch.rs:73-80 | so every interleaving of writes, subscribe and get leads to such a state |
| `Watches.NewIffStampMovesOn` | aimdb-client/src/watch.rs:73-80 | in every such state the new updates are exactly the writes after the get if and only if the first of those is stamped later than the value the get returned |
| `Watches.SameTickIsMissed` | aimdb-client/src/watch.rs:73-80 | a write stamped like the value the get returned is delivered but dropped by the baseline filter |
| `Watches.SameTickHappens` | aimdb-client/src/watch.rs:73-80 | a write, the subscribe, the get and another write in the same clock tick lead to that state |
| `Watches.WaitIsVerdict` | aimdb-client/src/watch.rs:108-159 | from every point of the loop, waiting on comes to what the new updates that arrive in time decide, whatever else the stream yields |
| `Watches.ArmThenAwait` | aimdb-client/src/watch.rs:82-159 | in every such state with a clock that moved on, for every deadline and callback: arming succeeds, and await hands on the writes after the get that arrive in time, in order and each once, up to the count or to the one the callback refuses; how it ends follows |
| `Registry.AimDbBuilder.Configure` | aimdb-core/src/builder.rs:540-630 | a new key is registered with its type and a collector; a known one of that type is configured again; another type is reported and its closure skipped; index and list stay inverse |
| `Registry.ConfiguredIsSound` | aimdb-core/src/builder.rs:540-630 | every configure call keeps index and list inverse, with one collector per record, of its own type |
| `Registry.EachKeyIsItsOwn` | aimdb-core/src/builder.rs:540-630 | after any calls each key holds exactly what its own calls, folded in order, make of it |
| `Registry.ErrorsAreMismatches` | aimdb-core/src/builder.rs:563-576 | after any calls the errors are exactly the calls with another type than their key's first, in order |
| `Registry.PositionsStay` | aimdb-core/src/builder.rs:585-589 | a registered record keeps its position, key and type |
| `Registry.KeysAreDistinct` | aimdb-core/src/builder.rs:779-785 | no two records have the same key, so the duplicate branch of build is unreachable |
| `Mistakes.RecordFindingsWhich` | aimdb-core/src/builder.rs:698-760 | a finding is reported for a record exactly when it is a mistake recorded for it with its key filled in, two kinds of writer, or links without a buffer |
| `Mistakes.AllInputFindingsWhich` | aimdb-core/src/builder.rs:802-827 | a finding about inputs is reported exactly when some record reads a registered input as another type than it is registered with |
| `Builds.NewEntry` | aimdb-core/src/builder.rs:787-798 | a record gets an empty key table, of its first keyed link's capacity, exactly when a link of it is keyed |
| `Builds.KeyedHasCapacity` | aimdb-core/src/builder.rs:788-792 | a capacity is found exactly when some link is keyed |
| `Builds.CapacityIsFirst` | aimdb-core/src/builder.rs:788-792 | it is that of the first keyed link |
| `Builds.BuildStorages` | aimdb-core/src/builder.rs:774-800 | ids are positions and the index inverts them; an error occurs exactly when a key repeats; no two records share a table |
| `Builds.Collect` | aimdb-core/src/builder.rs:913-930 | the collectors of the order run once each with their record's id, up to the first that fails |
| `Builds.StartOrderIs` | aimdb-core/src/builder.rs:916-930 | for sound registrations and a sane graph the start order holds each registered key once, after its inputs |
| `Builds.PlanRunsAll` | aimdb-core/src/builder.rs:916-930 | such an order runs every record's collector exactly once, with the record's own id, after those of all its transform inputs |
| `Builds.OwnCollectors` | aimdb-core/src/builder.rs:611-627 | every record's collector is of the record's type, so it never fails to find its typed record |
| `Builds.SaneIffWired` | aimdb-core/src/builder.rs:829-860 | the graph handed to the graph builder is sane exactly when, as configured, every input named is a record and no record is its own input, however indirectly |
| `Builds.GraphFindingIs` | aimdb-core/src/builder.rs:829-860 | otherwise the first record naming an unregistered input is reported, or exactly the records on or below a cycle of the configured inputs |
| `Mistakes.FindingsWhich` | aimdb-core/src/builder.rs:690-827 | over the whole validation a finding is reported exactly when it was recorded while configuring, is some record's mistake, is the missing runtime, or is some input read as another type |
| `Mistakes.FindingsInOrder` | aimdb-core/src/builder.rs:690-827 | the findings come in this order: those recorded while configuring, the records' own, the missing runtime, the inputs' |
| `Mistakes.NoFindingsIffClean` | aimdb-core/src/builder.rs:690-827 | nothing is reported if and only if nothing was configured wrongly, a runtime is set, every record has one kind of writer and a buffer if linked, and every registered input has the type it is read as |
| `Builds.Validate` | aimdb-core/src/builder.rs:690-827 | the loops collect exactly these findings, and the storages, before anything runs |
| `Builds.Build` | aimdb-core/src/builder.rs:690-930 | in terms of what was configured: build succeeds if and only if the inputs named are records without a cycle, the configuration is clean and every collector succeeds; then the graph has each record's node as configured, and every collector ran once, with its own id, in start order and after those of the inputs its record names; otherwise all findings are reported at once, the graph's last |
| `InboundRoutes.InboundRoute` | aimdb-core/src/builder.rs:1406-1434 | a link's route, or why it cannot be compiled |
| `InboundRoutes.RouteOf` | aimdb-core/src/builder.rs:1406-1434 | a keyed link of a record with a table gives a route keyed by that table and the capture the link names |
| `InboundRoutes.NameOfCapture` | aimdb-core/src/topic_pattern.rs:104-110 | the names are in the order of the captures: capture number c is called by name c |
| `InboundRoutes.InboundRouter` | aimdb-core/src/builder.rs:1366-1404 | all routes of the scheme in record order with their record's index, or every link that cannot be compiled |
| `InboundRoutes.EveryLinkIsRouted` | aimdb-core/src/builder.rs:1366-1404 | no link of the scheme is forgotten: each gives its record's route or an error naming it |
| `InboundRoutes.AllCome` | aimdb-core/src/builder.rs:1366-1404 | every route comes from a link of the scheme of the record it is filed under |
| `InboundRoutes.AllPlaced` | aimdb-core/src/builder.rs:1366-1404 | the routes are in the order of records and their links, each under its record's index, and so are the errors, each naming its record and topic |
| `InboundRoutes.RouteFails` | aimdb-core/src/builder.rs:1406-1434 | a link has no route for the first of these reasons: its topic is no pattern, the grammar refuses it, or its key is no capture |
| `InboundRoutes.SameTableIffSameRecord` | aimdb-core/src/builder.rs:1359-1360 | two keyed routes share a key table exactly when they belong to the same record |
| `InboundRoutes.KeyedLinkIsKeyed` | aimdb-core/src/builder.rs:1418-1427 | in a built database every keyed link's route is keyed, by the capture it names |
| `InboundRoutes.KeyNameIsCaptured` | aimdb-core/src/builder.rs:1436-1445 | looking up an ingested message's key on its record gives the captured value |
| `MqttLinks.FilterIsWritten` | aimdb-mqtt-connector/src/grammar.rs:38-107 | the filter of a link over MQTT is its topic with + for every {name} and # for {name..} |
| `MqttLinks.CaptureIsValue` | aimdb-core/src/builder.rs:1406-1434 | where a link's topic has the level {name}, the name gives a message that level of its own topic, and {name..} all that is left; a link keyed by the name asks its table for just that value |
| `MqttLinks.KeyedCalledIff` | aimdb-core/src/router.rs:97-166 | a keyed link's route is called if and only if the topic is delivered for its filter and that value has a key or there is room for one |
| `MqttLinks.KeyStandsForLevel` | aimdb-core/src/builder.rs:1436-1445 | end to end in a built database: the key a message carries stands, on the link's record, for what its topic has where the link's topic has {name} |

## Left out

- Executors, wakers, sockets, sessions, dialers and the runner: input, output and scheduling.
- JSON framing, serde's derive machinery and error texts: a serializer is driven by a value, a deserializer by a
  schema, and errors carry their kind only.
- Sequences whose `Serialize` announces one length and yields another number of elements encode as written
  here, but the round trip is stated for values whose announced length is their own.
- GraphBuild.BuildAndValidateSeeded: requires distinct keys, as the builder guarantees; `Registry.KeysAreDistinct`
  shows that configuring never violates it, and `GraphBuild.TwiceUnderflows` what a repeated key would do.
- String slicing at positions that are not character boundaries: spans and offsets are byte positions of texts
  in which every byte is a character.
- Locks and atomics: a key lookup is one step.
- `record.finish`'s checks on links, identity errors and connector registration: what a record holds at build
  time, with the mistakes recorded for it, is a parameter.
- Observability, logging, profiling, discovery, outbound links, and of the connectors all but the MQTT topic grammar.
- Git subprocesses and the file system: known files, ignored paths, the index and which paths exist are parameters.
- Retention of values in a record's buffer: how many are delivered to a new subscription is a parameter, and
  delivery is lossless and in order.
- Reading seeds, environment variables and hashes of build configurations.
