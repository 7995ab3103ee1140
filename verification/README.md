# A model of the MongoDB toolkit's BSON engine

The toolkit reads and writes MongoDB documents from IBM Streams. Its core is the
BSON engine of the vendored Mongo client headers and the SPL encoder and decoder
the toolkit generates on top of it. This project models both, and four smaller
machines of the same headers: atomics built from compare-and-swap, reference
counting, the scatter/gather `Message`, and GeoJSON geometry.

`dafny verify dfyconfig.toml` checks everything.

## Modules

- **The writer.** `BufferState` and `BufBuilder.dfy`: the growable byte buffer with its
  reservation counter, as a value and as a class over an array. `BuilderMachine` and
  `BuilderRuns`: nested builders sharing one buffer, as a machine whose invariant ties
  the bytes to the stack of open documents. `ObjBuilder.dfy`: the builder classes, each
  method specified by a step of that machine. `ScriptWriter.dfy`: arbitrary nested
  programs run on those classes, proved against the pure encoder of `Bson`, with the
  unwinding of every open builder when a call throws.
- **The reader.** `BsonReader` inverts the encoder (bsonspec.org, productions `document`
  and `element`; `bsonobj.h` restates them). `BsonFormat` says the format without the encoder,
  `BsonSamples` spells a document of every type. `BsonIterator`: the cursor class and the
  accessors of values with a variable layout.
- **SPL.** `Spl`: types, values, encoder and decoder by recursion on the type, including
  the `valueApplied` flag. `SplRoundTrip`, `SplNormal`: what survives the round trip, the
  normal form, and that the identity holds exactly on it. `SplFields`: tuples depend on
  the named fields only, maps not on the order of their entries. `SplCodec`: the emitted loops.
  `SplStored`: what is stored and what is taken, without the round trip.
- **Atomics, RefCounts.** Every interleaving of threads, one atomic step at a time.
  `AtomicLoops`: the retry loops as one thread runs them. `Handles`: the counting handles
  as objects, called from one thread.
- **Messages.** `Message.dfy`: bytes and header; `MessageClass.dfy`: the class over real
  buffers and a heap that refuses a second free; `MessageOwners.dfy`: ownership across
  several messages.
- **Geometry.** `GeoShapes`, `GeoBoxes`, `GeoAnswers`: bounding boxes over bounded reals;
  `GeoObjects`: the caches; `GeoJson`, `GeoCodec`: building and parsing.
- **Orderings, Doubles, Endian, DataViews.** Key directions in a word, what a double stands
  for, and byte order.

## Where the code differs from what it says

- A timestamp before 1970 with whole milliseconds beside its seconds does not survive the decoder's
  division towards zero, nor does one whose milliseconds pass 64 bits; `TimestampSurvivesIff`
  gives the exact condition on what is encoded and decoded, `NegativeTimestampIsLost` an input.
- Plain `next()` reads on past the end of an object whose last element does not end in it
  (`StaysInsideIff` gives the exact condition, `UncheckedReadsPast` an input).
- The strlen-based scope accessor is wrong exactly for codes that hold a NUL
  (`UnsafeScopeOffsetAgreesIff`).
- `validateType` accepts any type name that is a string, where its message promises the
  class's own (`TypeNameIsNotChecked`).
- A geometry collection without members and without a box of its own makes
  `getBoundingBox` dereference NULL (`AnswerExistsIff`).
- Empty nested collections, and blobs at any place, are lost on the way through BSON: the
  decoder's test for simple types excludes binary data and timestamps, so the branches for
  those never run (`RoundTrip`, `NotAppliedKeepsAttribute`).

## Model

| member | source | states |
|---|---|---|
| ScriptWriters.WriteDocument | com.ibm.streamsx.mongodb/impl/include/mongo/bson/bsonobjbuilder.h:733-752 | For every program of nested appends, sub-builders and peeks on the builder objects, with any bytes as names and patterns: the object returned is the document the program stands for in the published format and the pure encoding of it, it parses back to that document, and the program throws exactly when a name or a pattern holds a NUL or the document with the holder before it needs more than 64 MiB. |
| ScriptWriters.WriteAll | com.ibm.streamsx.mongodb/impl/include/mongo/bson/bsonobjbuilder.h:76-90 | A program run into any open builder, at any depth, extends the innermost document by its meaning, leaves the reservations as they were, and fails exactly when a call is refused for a NUL or the result does not fit; then every builder opened before is still open, with the byte of its terminator reserved. |
| ScriptWriters.WriteNest | com.ibm.streamsx.mongodb/impl/include/mongo/bson/bsonobjbuilder.h:107-115 | A sub-builder over the same buffer, written to and left at the end of its scope, adds exactly one element holding its document; it fails exactly when a call in it is refused or that element does not fit, and then the sub-builder has closed itself and the builders around it stand. |
| ScriptWriters.Open | com.ibm.streamsx.mongodb/impl/include/mongo/bson/bsonobjbuilder.h:177-205 | subobjStart or subarrayStart followed by the sub-builder's constructor opens a new innermost document at the end of the buffer with one byte more reserved, or returns nothing exactly when the name holds a NUL or that passes the limit, leaving every open builder with its reserved byte. |
| ScriptWriters.CloseSub | com.ibm.streamsx.mongodb/impl/include/mongo/bson/bsonobjbuilder.h:733-752 | Closing a sub-builder never fails nor moves the buffer: its finished document becomes an element of the parent's, and one reservation is given up. |
| ScriptWriters.Unwind | com.ibm.streamsx.mongodb/impl/include/mongo/bson/bsonobjbuilder.h:107-115 | While an exception unwinds, the destructor of a sub-builder writes the end of the broken document: it does not throw, grow, copy or move the buffer, and the builders around it stand as they did. |
| ScriptWriters.Put | com.ibm.streamsx.mongodb/impl/include/mongo/bson/bsonobjbuilder.h:207-246 | An append to the innermost builder extends its document by that element, and fails exactly when the name holds a NUL or the element does not fit, leaving every open builder with its reserved byte. |
| ScriptWriters.PutRegex | com.ibm.streamsx.mongodb/impl/include/mongo/bson/bsonobjbuilder.h:382-392 | The same for a regular expression, which fails for a NUL in its pattern, too. |
| ScriptWriters.Peek | com.ibm.streamsx.mongodb/impl/include/mongo/bson/bsonobjbuilder.h:644-650 | asTempObj in the middle of nested builders hands out the encoding of the innermost document, without moving the buffer, and leaves every open document as it was. |
| BuilderRuns.WriterRefinesEncoder | com.ibm.streamsx.mongodb/impl/include/mongo/bson/bsonobjbuilder.h:76-90 | For all block-structured programs, calls refused for a NUL passed over: unless a call passes the limit, the bytes from the root's offset on are the recursive encoding of the document tree. |
| BuilderRuns.RunBuildsDocument | com.ibm.streamsx.mongodb/impl/include/mongo/bson/bsonobjbuilder.h:733-752 | For all last-opened, first-closed sequences of calls: the closed root holds the encoding of the elements the calls spell out, every nested length and terminator included. |
| BuilderRuns.RunKeepsInv | com.ibm.streamsx.mongodb/impl/include/mongo/bson/bsonobjbuilder.h:177-205 | In every state such a run reaches, the buffer describes the stack of open documents and one byte is reserved for each. |
| BuilderRuns.ClosingNeverFails | com.ibm.streamsx.mongodb/impl/include/mongo/bson/bsonobjbuilder.h:107-115 | After every sequence of calls, whichever of them threw on the way, the reservations equal the number of open builders and lie inside the allocation, and all of them close in turn, the innermost first, each appending its terminator without growing, copying or throwing. |
| BuilderRuns.ThrownIsOpen | com.ibm.streamsx.mongodb/impl/include/mongo/bson/util/builder.h:248-265 | A call that throws, at whichever of its writes, leaves every open builder its length to patch and its reserved byte. |
| BuilderRuns.RunThrowsIff | com.ibm.streamsx.mongodb/impl/include/mongo/bson/util/builder.h:279-293 | A run throws exactly if some prefix of it needs more bytes and reservations than the limit. |
| BuilderRuns.PeekShowsDocument | com.ibm.streamsx.mongodb/impl/include/mongo/bson/bsonobjbuilder.h:644-650 | The temporary object is the encoding of the innermost document so far. |
| BuilderRuns.PeekIsTransparent | com.ibm.streamsx.mongodb/impl/include/mongo/bson/bsonobjbuilder.h:644-650 | Leaving the peeks out of a run changes neither whether it throws nor a byte of the finished object. |
| BuilderRuns.ScriptMeans | com.ibm.streamsx.mongodb/impl/include/mongo/bson/bsonobjbuilder.h:177-205 | The calls of a block-structured program are well bracketed and append its meaning to the innermost document. |
| BuilderMachine.StepKeepsInv | com.ibm.streamsx.mongodb/impl/include/mongo/bson/bsonobjbuilder.h:733-752 | Every single call keeps the invariant, throws exactly when it passes the limit, and moves length and reservations by the stated amounts; closing and peeking never throw, grow or copy. |
| BuilderMachine.CloseIsEncoding | com.ibm.streamsx.mongodb/impl/include/mongo/bson/bsonobjbuilder.h:733-752 | Writing the terminator into the claimed byte and patching the length turns the open bytes into the encoding of the document. |
| BuilderMachine.CloseIsElement | com.ibm.streamsx.mongodb/impl/include/mongo/bson/bsonobjbuilder.h:177-205 | A closed sub-document together with its header is one encoded element. |
| BuilderMachine.BeginWorks | com.ibm.streamsx.mongodb/impl/include/mongo/bson/bsonobjbuilder.h:76-90 | Header, skipped length and reservation succeed exactly if they fit together, and leave exactly those bytes. |
| BuilderMachine.SubKinds | com.ibm.streamsx.mongodb/impl/include/mongo/bson/bsonobjbuilder.h:177-205 | A sub-object is of type 3, a sub-array of type 4. |
| BuilderMachine.FlattenChunks | com.ibm.streamsx.mongodb/impl/include/mongo/bson/bsonobjbuilder.h:382-573 | For every value type, the writes an append makes, one after the other, are the bytes of the element in the specified format. |
| ObjBuilders.ObjBuilder.constructor | com.ibm.streamsx.mongodb/impl/include/mongo/bson/bsonobjbuilder.h:56-70 | A root builder starts with the holder and the length skipped, and one byte reserved for its terminator. |
| ObjBuilders.ObjBuilder.NewSub | com.ibm.streamsx.mongodb/impl/include/mongo/bson/bsonobjbuilder.h:76-90 | The constructor over an existing buffer remembers the current end as its offset, skips four bytes and reserves one; null exactly stands for the exception, which leaves at most the skipped bytes. |
| ObjBuilders.ObjBuilder.Field | com.ibm.streamsx.mongodb/impl/include/mongo/bson/bsonobjbuilder.h:46-48 | A name with a NUL is refused before anything is written; otherwise type byte, name and terminator are written, or the limit exception ends it part way. |
| ObjBuilders.ObjBuilder.SubStart | com.ibm.streamsx.mongodb/impl/include/mongo/bson/bsonobjbuilder.h:177-205 | Writes the header of a sub-document and nothing else. |
| ObjBuilders.ObjBuilder.AppendWhole | com.ibm.streamsx.mongodb/impl/include/mongo/bson/bsonobjbuilder.h:207-246 | Numbers, booleans, dates, ids, timestamps and finished objects: the buffer afterwards is the buffer before with the writes of that element, or the exception it ends in. |
| ObjBuilders.ObjBuilder.AppendBare | com.ibm.streamsx.mongodb/impl/include/mongo/bson/bsonobjbuilder.h:458-478 | null, min and max key and undefined: a header and no value bytes. |
| ObjBuilders.ObjBuilder.AppendText | com.ibm.streamsx.mongodb/impl/include/mongo/bson/bsonobjbuilder.h:398-446 | String, code and symbol: the stored length counts the terminator; NULs inside the text are kept. |
| ObjBuilders.ObjBuilder.AppendRegex | com.ibm.streamsx.mongodb/impl/include/mongo/bson/bsonobjbuilder.h:382-392 | A pattern with a NUL is refused, after the name, with nothing written. |
| ObjBuilders.ObjBuilder.AppendBinData | com.ibm.streamsx.mongodb/impl/include/mongo/bson/bsonobjbuilder.h:525-536 | Length, subtype and bytes. |
| ObjBuilders.ObjBuilder.AppendBinDataArrayDeprecated | com.ibm.streamsx.mongodb/impl/include/mongo/bson/bsonobjbuilder.h:548-557 | Subtype 2 with the second, inner length: exactly if it fits, the element whose payload starts with that length is added whole; otherwise at most a part of it is. |
| ObjBuilders.ObjBuilder.AppendDBRef | com.ibm.streamsx.mongodb/impl/include/mongo/bson/bsonobjbuilder.h:504-512 | The namespace as a counted string, then the twelve bytes of the id. |
| ObjBuilders.ObjBuilder.AppendCodeWScope | com.ibm.streamsx.mongodb/impl/include/mongo/bson/bsonobjbuilder.h:562-573 | Total size, code as a counted string, then the whole scope document. |
| ObjBuilders.ObjBuilder.Append | com.ibm.streamsx.mongodb/impl/include/mongo/bson/bsonobjbuilder.h:207-579 | Whichever overload the value selects, the buffer changes exactly by that element. |
| ObjBuilders.ObjBuilder.AppendObject | com.ibm.streamsx.mongodb/impl/include/mongo/bson/bsonobjbuilder.h:148-193 | The bytes of a finished object become the value of an object or array element. |
| ObjBuilders.ObjBuilder.AppendVector | com.ibm.streamsx.mongodb/impl/include/mongo/bson/bsonobjbuilder.h:892-900 | Appends the array whose elements are named by position; if that array alone passes the limit, nothing is written to this buffer. |
| ObjBuilders.FinishedObj | com.ibm.streamsx.mongodb/impl/include/mongo/bson/bsonobjbuilder.h:631-633 | done() of a root builder: the bytes from its offset on are the encoding of its document. |
| ObjBuilders.BuildArray | com.ibm.streamsx.mongodb/impl/include/mongo/bson/bsonobjbuilder.h:892-912 | The loop over a container yields the encoding of the array named "0", "1", ...; it fails exactly when the array with its holder passes the limit. |
| ObjBuilders.ObjBuilder.Done | com.ibm.streamsx.mongodb/impl/include/mongo/bson/bsonobjbuilder.h:733-752 | Closes once, in the same allocation; a second call changes nothing. |
| ObjBuilders.ObjBuilder.AsTempObj | com.ibm.streamsx.mongodb/impl/include/mongo/bson/bsonobjbuilder.h:644-650 | The bytes are those of the closed object, in a buffer that does not move; afterwards the builder is open again, its terminator dropped and the byte reserved once more. |
| ObjBuilders.ObjBuilder.Destroy | com.ibm.streamsx.mongodb/impl/include/mongo/bson/bsonobjbuilder.h:107-115 | A sub-builder that was not closed closes itself, in the same allocation; an owning or closed one writes nothing. |
| ObjBuilders.ArrayBuilder.Append | com.ibm.streamsx.mongodb/impl/include/mongo/bson/bsonobjbuilder.h:771-775 | Each append takes the next index as its name, whether or not it succeeds. |
| ObjBuilders.ArrayBuilder.Num | com.ibm.streamsx.mongodb/impl/include/mongo/bson/bsonobjbuilder.h:885-887 | The index in decimal, counted up. |
| ObjBuilders.AppendedIsElement | com.ibm.streamsx.mongodb/impl/include/mongo/bson/bsonobjbuilder.h:207-579 | What an append means: it succeeds exactly if the element fits the limit, then the element's bytes are added; in every case the earlier bytes stay and at most a part of the element follows them. |
| ObjBuilders.OpenSubIsBegin | com.ibm.streamsx.mongodb/impl/include/mongo/bson/bsonobjbuilder.h:177-182 | Header and constructor together are the step that opens a sub-document. |
| ObjBuilders.DeprecatedIsElement | com.ibm.streamsx.mongodb/impl/include/mongo/bson/bsonobjbuilder.h:548-557 | The four writes after the header are the element with the inner length in its payload. |
| BufBuilders.BufBuilder.GrowReallocate | com.ibm.streamsx.mongodb/impl/include/mongo/bson/util/builder.h:279-293 | Terminates without overflow; throws exactly when the least 64*2^k that fits is above 64 MiB, otherwise the new allocation has that size and the written prefix. |
| BufBuilders.BufBuilder.Grow | com.ibm.streamsx.mongodb/impl/include/mongo/bson/util/builder.h:234-243 | Makes room at the end beyond the reserved bytes, or throws with nothing changed. |
| BufBuilders.BufBuilder.AppendBuf | com.ibm.streamsx.mongodb/impl/include/mongo/bson/util/builder.h:207-209 | The new bytes follow the old ones in the array, or the exception leaves all as it was. |
| BufBuilders.BufBuilder.AppendStr | com.ibm.streamsx.mongodb/impl/include/mongo/bson/util/builder.h:216-219 | The bytes, with the terminator unless told otherwise. |
| BufBuilders.BufBuilder.AppendInt | com.ibm.streamsx.mongodb/impl/include/mongo/bson/util/builder.h:172-205 | Four bytes, little-endian two's complement. |
| BufBuilders.BufBuilder.SetLen | com.ibm.streamsx.mongodb/impl/include/mongo/bson/util/builder.h:225-227 | Moves the end, back over written bytes or on over bytes the allocation holds already. |
| BufBuilders.BufBuilder.ReserveBytes | com.ibm.streamsx.mongodb/impl/include/mongo/bson/util/builder.h:248-255 | The promise is recorded only after any growth has succeeded, and without growth the buffer does not move. |
| BufBuilders.BufBuilder.ClaimReservedBytes | com.ibm.streamsx.mongodb/impl/include/mongo/bson/util/builder.h:262-265 | Turns promised bytes back into free ones. |
| BufBuilders.BufBuilder.constructor | com.ibm.streamsx.mongodb/impl/include/mongo/bson/util/builder.h:105-115 | An empty buffer of the given capacity. |
| BufferState.CapacityIsLeast | com.ibm.streamsx.mongodb/impl/include/mongo/bson/util/builder.h:279-293 | The doubling loop ends at the least 64*2^k that is not below the request. |
| BufferState.CapacityPastLimit | com.ibm.streamsx.mongodb/impl/include/mongo/bson/util/builder.h:50 | Growth is refused exactly for requests above 64 MiB. |
| BufferState.AppendAllWorks | com.ibm.streamsx.mongodb/impl/include/mongo/bson/util/builder.h:207-243 | A sequence of appends succeeds exactly if all of it fits; then its bytes follow the old ones, otherwise what was written is a prefix of them. |
| BuilderRuns.GrowthIsLinear | com.ibm.streamsx.mongodb/impl/include/mongo/bson/util/builder.h:279-293 | After every sequence of calls on nested builders over one buffer, whichever of them threw, the old capacity copied by all its reallocations is below the first plus the present size. |
| BsonReader.ParseDocBack | com.ibm.streamsx.mongodb/impl/include/mongo/bson/bsonobj.h:51-76 | Parsing the encoding of a document gives the document: every field, value and order, at every depth. |
| BsonReader.EncodingIsInjective | com.ibm.streamsx.mongodb/impl/include/mongo/bson/bsonobj.h:51-76 | Two documents with the same bytes are the same document. |
| BsonReader.ElementSizeBack | com.ibm.streamsx.mongodb/impl/include/mongo/bson/bsonelement.h:48-53 | Whatever follows an encoded element, its size by the layout is the number of its bytes. |
| BsonReader.ValueSizeBack | com.ibm.streamsx.mongodb/impl/include/mongo/bson/bsonobj.h:51-76 | The same for the value of every type. |
| BsonReader.SplitFirstBack | com.ibm.streamsx.mongodb/impl/include/mongo/bson/bsonelement.h:201-214 | Type, name and value read off the front of a buffer are those of the element written there. |
| BsonReader.SplitScopedBack | com.ibm.streamsx.mongodb/impl/include/mongo/bson/bsonelement.h:344-376 | The code and the scope of code-with-scope are told apart by the stored lengths, for every code. |
| BsonReader.AnyFlagReads | com.ibm.streamsx.mongodb/impl/include/mongo/bson/bsonelement.h:227-229 | Any byte but zero reads as true. |
| BsonFormat.EncoderIsFormat | com.ibm.streamsx.mongodb/impl/include/mongo/bson/bsonobj.h:51-76 | The encoder is the published format: some bytes are a document, production by production with type numbers and byte orders written out, if and only if the encoder writes them and they are fewer than 2^31. |
| BsonFormat.TagIsTypeNumber | com.ibm.streamsx.mongodb/impl/include/mongo/bson/bsontypes.h:40-77 | The type byte of every value is the number of the format. |
| BsonSamples.TypeByte | com.ibm.streamsx.mongodb/impl/include/mongo/bson/bsontypes.h:40-77 | The first byte of an encoded element is that number. |
| BsonSamples.MinKeyBytes | com.ibm.streamsx.mongodb/impl/include/mongo/bson/bsontypes.h:40 | A whole document with one field, byte by byte: the least key, type 255. |
| BsonSamples.MaxKeyBytes | com.ibm.streamsx.mongodb/impl/include/mongo/bson/bsontypes.h:82 | The same for the greatest key, type 127. |
| BsonSamples.UndefinedBytes | com.ibm.streamsx.mongodb/impl/include/mongo/bson/bsontypes.h:54 | The same for undefined, type 6. |
| BsonSamples.NullBytes | com.ibm.streamsx.mongodb/impl/include/mongo/bson/bsontypes.h:62 | The same for null, type 10. |
| BsonSamples.BoolBytes | com.ibm.streamsx.mongodb/impl/include/mongo/bson/bsontypes.h:58 | The same for a flag, type 8, true being 1. |
| BsonSamples.DoubleBytes | com.ibm.streamsx.mongodb/impl/include/mongo/bson/bsontypes.h:44 | The same for a double, type 1, lowest byte first. |
| BsonSamples.DateBytes | com.ibm.streamsx.mongodb/impl/include/mongo/bson/bsontypes.h:60 | The same for a date, type 9, lowest byte first. |
| BsonSamples.TimestampBytes | com.ibm.streamsx.mongodb/impl/include/mongo/bson/bsontypes.h:76 | The same for a timestamp, type 17: the increment, then the seconds. |
| BsonSamples.IntBytes | com.ibm.streamsx.mongodb/impl/include/mongo/bson/bsontypes.h:74 | The same for a 32-bit integer, type 16, two's complement. |
| BsonSamples.LongBytes | com.ibm.streamsx.mongodb/impl/include/mongo/bson/bsontypes.h:78 | The same for a 64-bit integer, type 18. |
| BsonSamples.StrBytes | com.ibm.streamsx.mongodb/impl/include/mongo/bson/bsontypes.h:46 | The same for a string, type 2, whose length counts the terminator. |
| BsonSamples.CodeBytes | com.ibm.streamsx.mongodb/impl/include/mongo/bson/bsontypes.h:68 | The same for code, type 13. |
| BsonSamples.SymbolBytes | com.ibm.streamsx.mongodb/impl/include/mongo/bson/bsontypes.h:70 | The same for a symbol, type 14. |
| BsonSamples.BinDataBytes | com.ibm.streamsx.mongodb/impl/include/mongo/bson/bsontypes.h:52 | The same for binary data, type 5: length, subtype, bytes. |
| BsonSamples.ObjectIdBytes | com.ibm.streamsx.mongodb/impl/include/mongo/bson/bsontypes.h:56 | The same for an object id, type 7. |
| BsonSamples.RegExBytes | com.ibm.streamsx.mongodb/impl/include/mongo/bson/bsontypes.h:64 | The same for a regular expression, type 11: pattern, then options. |
| BsonSamples.DBRefBytes | com.ibm.streamsx.mongodb/impl/include/mongo/bson/bsontypes.h:66 | The same for a reference, type 12: namespace, then id. |
| BsonSamples.ObjectBytes | com.ibm.streamsx.mongodb/impl/include/mongo/bson/bsontypes.h:48 | The same for an object, type 3. |
| BsonSamples.ArrayBytes | com.ibm.streamsx.mongodb/impl/include/mongo/bson/bsontypes.h:50 | The same for an array, type 4, its items named "0" and "1". |
| BsonSamples.CodeWScopeBytes | com.ibm.streamsx.mongodb/impl/include/mongo/bson/bsontypes.h:72 | The same for code with scope, type 15: size, code, scope. |
| BsonIterator.ForEach | com.ibm.streamsx.mongodb/impl/include/mongo/bson/bsonobjiterator.h:174-179 | On a document the loop visits exactly its elements, in order, and stops on its terminator. |
| BsonIterator.BSONObjIterator.constructor | com.ibm.streamsx.mongodb/impl/include/mongo/bson/bsonobjiterator.h:41-49 | Trusts the size the object states, zero or negative ones included: the cursor stands before the first element, or the object is null or over at once. |
| BsonIterator.BSONObjIterator.Next | com.ibm.streamsx.mongodb/impl/include/mongo/bson/bsonobjiterator.h:85-90 | Before element k it returns element k and stands before the next; at the end it returns the end-of-object element, the cursor one past it; past the end it fails. |
| BsonIterator.BSONObjIterator.NextChecked | com.ibm.streamsx.mongodb/impl/include/mongo/bson/bsonobjiterator.h:69-84 | next(true) on any bytes: type, name and size are found in the bytes up to the end of the object only, or it asserts, as it does behind the end; before element k of a document it finds that element, and after the last one the terminator. |
| BsonIterator.ForEachChecked | com.ibm.streamsx.mongodb/impl/include/mongo/bson/bsonobjiterator.h:69-84 | For any bytes and any size function, an iteration with next(true) finds every item in the bytes up to the end of the object, and then is at or past the end or asserts; on a document it finds exactly its elements. |
| BsonIterator.CheckedFindsElements | com.ibm.streamsx.mongodb/impl/include/mongo/bson/bsonobjiterator.h:69-84 | With the sizes the bytes themselves state, a checked iteration over a document finds exactly its elements, in order. |
| BsonIterator.CheckedAgrees | com.ibm.streamsx.mongodb/impl/include/mongo/bson/bsonelement.h:519-531 | An element that lies inside the object is found checked and unchecked alike, whatever stands behind the object. |
| BsonIterator.StaysInsideIff | com.ibm.streamsx.mongodb/impl/include/mongo/bson/bsonobjiterator.h:85-90 | For all bytes up to the end of an object: plain next() does the same whatever memory stands behind them if and only if they start with the terminator, with an unknown type, or with a name that ends there and a value that ends there or states a negative length. |
| BsonIterator.UncheckedReadsPast | com.ibm.streamsx.mongodb/impl/include/mongo/bson/bsonobjiterator.h:85-90 | An instance: for one object whose name does not end in it, two memories behind it give different elements, where next(true) asserts. |
| BsonIterator.BSONObjIterator.More | com.ibm.streamsx.mongodb/impl/include/mongo/bson/bsonobjiterator.h:57-59 | True exactly while elements remain. |
| BsonIterator.BSONObjIterator.MoreWithEOO | com.ibm.streamsx.mongodb/impl/include/mongo/bson/bsonobjiterator.h:63-65 | True up to and including the terminator. |
| BsonIterator.ItemIsElement | com.ibm.streamsx.mongodb/impl/include/mongo/bson/bsonobjiterator.h:85-90 | At the position of element k the reader finds element k, and the next position lies inside the document. |
| BsonIterator.ItemIsEoo | com.ibm.streamsx.mongodb/impl/include/mongo/bson/bsonobjiterator.h:85-90 | After the last element the reader finds the terminator. |
| BsonIterator.SizeOfDocument | com.ibm.streamsx.mongodb/impl/include/mongo/bson/bsonobj.h:308-310 | objsize() is the number of bytes of the document. |
| BsonIterator.ScopeOffsetIsExact | com.ibm.streamsx.mongodb/impl/include/mongo/bson/bsonelement.h:344-365 | The length-based accessor finds the appended scope for every code, NULs included. |
| BsonIterator.UnsafeScopeOffsetAgreesIff | com.ibm.streamsx.mongodb/impl/include/mongo/bson/bsonelement.h:366-376 | The strlen-based accessor finds the same place if and only if the code has no NUL. |
| BsonIterator.BinDataReadsBack | com.ibm.streamsx.mongodb/impl/include/mongo/bson/bsonelement.h:387-410 | binDataClean returns the appended bytes for both append functions, subtype 2 skipping its inner length. |
| BsonIterator.DBRefReadsBack | com.ibm.streamsx.mongodb/impl/include/mongo/bson/bsonelement.h:501-506 | dbrefOID returns the appended id. |
| BsonIterator.TimestampReadsBack | com.ibm.streamsx.mongodb/impl/include/mongo/bson/bsonelement.h:489-494 | The two halves of a timestamp come back in their places. |
| Bson.IndexNamesDistinct | com.ibm.streamsx.mongodb/impl/include/mongo/bson/bsonobjbuilder.h:669-675 | The decimal names of array positions are distinct. |
| Bson.NoLeadingZero | com.ibm.streamsx.mongodb/impl/include/mongo/bson/bsonobjbuilder.h:669-675 | A name of several digits does not start with a zero. |
| Bson.DecimalIsNumeral | com.ibm.streamsx.mongodb/impl/include/mongo/bson/bsonobjbuilder.h:669-675 | The name of a position is the one string of digits without a leading zero that counts up to it. |
| Bson.EncodeElementsAppend | com.ibm.streamsx.mongodb/impl/include/mongo/bson/bsonobj.h:51-76 | Encoding element lists is concatenation. |
| SplRoundTrip.RoundTrip | com.ibm.streamsx.mongodb/com.ibm.streamsx.mongodb/Common/QueryCommon.pm:58-193 | For every type and value whose timestamps survive as TimestampSurvivesIff says: encoding succeeds exactly if no map key holds a NUL (the limit of 64 MiB, which is that of the builders underneath, apart), and decoding into a cleared attribute gives the normal form, applied exactly if the value is visible. |
| SplRoundTrip.PrimRoundTrip | com.ibm.streamsx.mongodb/com.ibm.streamsx.mongodb/Common/QueryCommon.pm:210-255 | The same for every primitive type; blobs come back as nothing. |
| SplRoundTrip.IntegerRoundTrip | com.ibm.streamsx.mongodb/com.ibm.streamsx.mongodb/Common/QueryCommon.pm:324-341 | Every width and signedness comes back exactly, through the 32 or 64 bits it is stored in. |
| SplRoundTrip.TimeRoundTrip | com.ibm.streamsx.mongodb/com.ibm.streamsx.mongodb/Common/QueryCommon.pm:367-381 | A timestamp within the bounds of TimestampSurvivesIff comes back cut to the millisecond. |
| SplRoundTrip.TimestampSurvivesIff | com.ibm.streamsx.mongodb/com.ibm.streamsx.mongodb/Common/QueryCommon.pm:367-381 | Over all timestamps, encoded and decoded: the instant cut to the millisecond comes back if and only if its milliseconds fit 64 signed bits, and its seconds are not negative or its nanoseconds are below a millisecond. |
| SplRoundTrip.NegativeTimestampIsLost | com.ibm.streamsx.mongodb/com.ibm.streamsx.mongodb/Common/QueryCommon.pm:367-381 | Encoded and decoded, the timestamp half a second before 1970 becomes zero seconds and minus half a billion nanoseconds. |
| SplRoundTrip.ListRoundTrip | com.ibm.streamsx.mongodb/com.ibm.streamsx.mongodb/Common/QueryCommon.pm:100-127 | Elements that decode to nothing are dropped from a list, all others come back in order. |
| SplRoundTrip.SetRoundTrip | com.ibm.streamsx.mongodb/com.ibm.streamsx.mongodb/Common/QueryCommon.pm:100-127 | The same for sets, whatever order they are enumerated in. |
| SplRoundTrip.MapRoundTrip | com.ibm.streamsx.mongodb/com.ibm.streamsx.mongodb/Common/QueryCommon.pm:130-161 | Entries whose value decodes to nothing are dropped from a map. |
| SplRoundTrip.TupleRoundTrip | com.ibm.streamsx.mongodb/com.ibm.streamsx.mongodb/Common/QueryCommon.pm:164-193 | Every attribute of a tuple comes back, found by its name. |
| SplNormal.NormIsIdempotent | com.ibm.streamsx.mongodb/com.ibm.streamsx.mongodb/Common/QueryCommon.pm:58-193 | Normalising twice is normalising once, and does not change whether a value is visible. |
| SplNormal.NormIsNormal | com.ibm.streamsx.mongodb/com.ibm.streamsx.mongodb/Common/QueryCommon.pm:58-193 | The normal form is of the type and normal: milliseconds only, no empty collections inside collections. |
| SplNormal.NormalIsFixed | com.ibm.streamsx.mongodb/com.ibm.streamsx.mongodb/Common/QueryCommon.pm:58-193 | A normal value is its own normal form. |
| SplNormal.RoundTripIsIdentityIffNormal | com.ibm.streamsx.mongodb/com.ibm.streamsx.mongodb/Common/QueryCommon.pm:58-193 | The round trip is the identity exactly on normal values, and a second trip changes nothing. |
| SplFields.TupleDependsOnNamedFields | com.ibm.streamsx.mongodb/com.ibm.streamsx.mongodb/Common/QueryCommon.pm:164-193 | Two objects that agree on the named fields, recursively through the type, decode to the same tuple. |
| SplFields.PermutationIsSameNamed | com.ibm.streamsx.mongodb/com.ibm.streamsx.mongodb/Common/QueryCommon.pm:164-193 | Permuting distinctly named fields keeps that agreement. |
| SplFields.MapDependsOnEntries | com.ibm.streamsx.mongodb/com.ibm.streamsx.mongodb/Common/QueryCommon.pm:130-161 | Permuting the distinctly named entries of a map leaves the decoded map as it was. |
| SplFields.AlikeDecodeAlike | com.ibm.streamsx.mongodb/com.ibm.streamsx.mongodb/Common/QueryCommon.pm:58-97 | By induction on the type: values alike in what the type names decode alike, with the same flag; tuples may differ in order and in other fields, maps in the order of distinctly named entries. |
| SplFields.NotAppliedKeepsAttribute | com.ibm.streamsx.mongodb/com.ibm.streamsx.mongodb/Common/QueryCommon.pm:58-97 | A decode that is not applied leaves the attribute untouched. |
| SplFields.LookupIsMembership | com.ibm.streamsx.mongodb/com.ibm.streamsx.mongodb/Common/QueryCommon.pm:164-193 | With distinct names, lookup finds exactly the fields that are there. |
| SplCodec.BuildBSONObject | com.ibm.streamsx.mongodb/com.ibm.streamsx.mongodb/Common/BSONCommon.pm:7-30 | The generated encoder computes the encoding, or fails with it. |
| SplCodec.BuildFromListOrSet | com.ibm.streamsx.mongodb/com.ibm.streamsx.mongodb/Common/BSONCommon.pm:73-91 | The loop over a list or set appends one element per item. |
| SplCodec.BuildFromMap | com.ibm.streamsx.mongodb/com.ibm.streamsx.mongodb/Common/BSONCommon.pm:94-116 | The loop over a map appends one field per key. |
| SplCodec.BuildFromTuple | com.ibm.streamsx.mongodb/com.ibm.streamsx.mongodb/Common/BSONCommon.pm:119-144 | One field per attribute, in order. |
| SplCodec.HandleBSONObject | com.ibm.streamsx.mongodb/com.ibm.streamsx.mongodb/Common/QueryCommon.pm:58-97 | The generated decoder computes value and valueApplied flag together. |
| SplCodec.HandleBSONArray | com.ibm.streamsx.mongodb/com.ibm.streamsx.mongodb/Common/QueryCommon.pm:100-127 | The loop adds exactly the items that were applied, each decoded into a cleared element. |
| SplCodec.HandleBSONArrayAsSet | com.ibm.streamsx.mongodb/com.ibm.streamsx.mongodb/Common/QueryCommon.pm:100-127 | The same into a set. |
| SplCodec.HandleBSONObjectAsMap | com.ibm.streamsx.mongodb/com.ibm.streamsx.mongodb/Common/QueryCommon.pm:130-161 | The loop adds exactly the entries that were applied. |
| SplCodec.HandleBSONObjectAsTuple | com.ibm.streamsx.mongodb/com.ibm.streamsx.mongodb/Common/QueryCommon.pm:164-193 | Each attribute is looked up by name; one that is absent or not applied keeps its value. |
| SplCodec.StoredAttributeComesBack | com.ibm.streamsx.mongodb/com.ibm.streamsx.mongodb/Common/BSONCommon.pm:33-65 | Through the bytes of the stored document: an attribute written under a key and queried by that key comes back as its normal form. |
| SplCodec.StoredTupleComesBack | com.ibm.streamsx.mongodb/com.ibm.streamsx.mongodb/Common/QueryCommon.pm:6-46 | A tuple stored without a key comes back from the whole document, whatever other fields surround it. |
| SplStored.EncodeStores | com.ibm.streamsx.mongodb/com.ibm.streamsx.mongodb/Common/BSONCommon.pm:7-175 | For every type and value that encodes: flags, texts, integers, floats, times and blobs are stored as the element of the type and number they should be, a blob with all its bytes and subtype 0, at every depth of lists, sets, maps and tuples, item by item and name by name. |
| SplStored.StoredIsStored | com.ibm.streamsx.mongodb/com.ibm.streamsx.mongodb/Common/BSONCommon.pm:33-65 | The same read from the bytes of the stored document, under the key of the attribute. |
| SplStored.StoredTupleIsStored | com.ibm.streamsx.mongodb/com.ibm.streamsx.mongodb/Common/BSONCommon.pm:59-62 | The same for a tuple stored without a key. |
| SplStored.BlobBytes | com.ibm.streamsx.mongodb/com.ibm.streamsx.mongodb/Common/BSONCommon.pm:153-155 | The bytes of a stored blob read back through the accessor, under subtype 0. |
| SplStored.TakenIff | com.ibm.streamsx.mongodb/com.ibm.streamsx.mongodb/Common/QueryCommon.pm:210-255 | For every primitive type and every element: exactly which type numbers set the flag, and for an enum only a text among its names; otherwise the attribute keeps what it held. |
| SplStored.IntegerArrives | com.ibm.streamsx.mongodb/com.ibm.streamsx.mongodb/Common/QueryCommon.pm:324-341 | A number in the range of an integer attribute arrives as it is, from an int, a long or a double. |
| SplStored.FloatArrives | com.ibm.streamsx.mongodb/com.ibm.streamsx.mongodb/Common/QueryCommon.pm:312-321 | A whole number up to 2^53 arrives in a float64 as it is, from an int, a long or a double. |
| SplStored.IntegerTaken | com.ibm.streamsx.mongodb/com.ibm.streamsx.mongodb/Common/QueryCommon.pm:324-341 | An integer attribute wraps a stored int or long, and has the runtime convert a double. |
| SplStored.FloatTaken | com.ibm.streamsx.mongodb/com.ibm.streamsx.mongodb/Common/QueryCommon.pm:312-321 | A float attribute gets the stored double, or the double of a stored int or long. |
| SplStored.FlagTaken | com.ibm.streamsx.mongodb/com.ibm.streamsx.mongodb/Common/QueryCommon.pm:271-281 | A flag arrives as it is. |
| SplStored.TextTaken | com.ibm.streamsx.mongodb/com.ibm.streamsx.mongodb/Common/QueryCommon.pm:284-298 | A text arrives as it is in the three text types, and in an enum that has it. |
| SplStored.TimeTaken | com.ibm.streamsx.mongodb/com.ibm.streamsx.mongodb/Common/QueryCommon.pm:367-381 | A date of any sign becomes that instant, seconds and nanoseconds both of its sign. |
| SplStored.Ranges | com.ibm.streamsx.mongodb/com.ibm.streamsx.mongodb/Common/QueryCommon.pm:324-341 | The ranges of the integer types in numbers. |
| SplStored.WrapIs | com.ibm.streamsx.mongodb/com.ibm.streamsx.mongodb/Common/QueryCommon.pm:324-341 | A number out of range becomes the one in range that differs by a multiple of the modulus. |
| SplStored.KindTaken | com.ibm.streamsx.mongodb/com.ibm.streamsx.mongodb/Common/QueryCommon.pm:100-193 | Lists and sets are taken from arrays only, maps and tuples from objects only. |
| SplStored.ListTakes | com.ibm.streamsx.mongodb/com.ibm.streamsx.mongodb/Common/QueryCommon.pm:100-127 | A list keeps what it held, followed by what the items give in order, those that apply nothing left out. |
| SplStored.SetTakes | com.ibm.streamsx.mongodb/com.ibm.streamsx.mongodb/Common/QueryCommon.pm:100-127 | The same for a set. |
| SplStored.MapTakes | com.ibm.streamsx.mongodb/com.ibm.streamsx.mongodb/Common/QueryCommon.pm:130-161 | In a map the last field of a name that applies something decides; other names keep what they held. |
| SplStored.TupleTakes | com.ibm.streamsx.mongodb/com.ibm.streamsx.mongodb/Common/QueryCommon.pm:164-193 | Each attribute of a tuple takes the first field of its name, and without one keeps what it held. |
| SplStored.FirstField | com.ibm.streamsx.mongodb/com.ibm.streamsx.mongodb/Common/QueryCommon.pm:164-193 | A lookup finds the first field of a name. |
| SplStored.DefaultIsCleared | com.ibm.streamsx.mongodb/com.ibm.streamsx.mongodb/Common/QueryCommon.pm:100-127 | Items are decoded into attributes cleared at every depth. |
| Atomics.CallsAreLinearizable | com.ibm.streamsx.mongodb/impl/include/mongo/platform/atomic_intrinsics_gcc_intel.h:119-145 | In every interleaving, whatever the plain reads returned: the successful attempts form a sequential execution from the initial to the current value, one per returned call, which returned the value just before it. |
| Atomics.CommitsKeepRealTimeOrder | com.ibm.streamsx.mongodb/impl/include/mongo/platform/atomic_intrinsics_gcc_intel.h:119-145 | A call that returned before another took its first step is also before it in that sequential execution. |
| Atomics.SwapsConserveValues | com.ibm.streamsx.mongodb/impl/include/mongo/platform/atomic_intrinsics_gcc_sync.h:37-45 | Over every run of swaps from the initial state, the initial value and the values written are, as a multiset, the values returned and the current one. |
| Atomics.AddsSumUp | com.ibm.streamsx.mongodb/impl/include/mongo/platform/atomic_intrinsics_win32.h:135-145 | Over every run of fetch-and-adds from the initial state, the cell is the initial value plus all committed increments modulo 2^64. |
| Atomics.FailedRetryMeansProgress | com.ibm.streamsx.mongodb/impl/include/mongo/platform/atomic_intrinsics_win32.h:118-145 | An attempt that must fail after a valid observation means another call changed the cell in between. |
| Atomics.AloneItReturns | com.ibm.streamsx.mongodb/impl/include/mongo/platform/atomic_intrinsics_gcc_intel.h:119-145 | A call left alone returns within one retry, whatever it expected at first. |
| Atomics.FailedAttemptLands | com.ibm.streamsx.mongodb/impl/include/mongo/platform/atomic_intrinsics_win32.h:118-145 | A failed attempt changes nothing but its own call, which goes on with the value it found, or reads again, as the platform does. |
| Atomics.CallAloneReturns | com.ibm.streamsx.mongodb/impl/include/mongo/platform/atomic_intrinsics_gcc_intel.h:119-145 | A whole call left alone, whatever its first read returned, commits once and returns what it replaced. |
| Atomics.ReadLands | com.ibm.streamsx.mongodb/impl/include/mongo/platform/atomic_intrinsics_gcc_intel.h:119-145 | A read gives the value to expect, seen now exactly if it was the cell's, and disturbs nothing else. |
| Atomics.RunKeepsInv | com.ibm.streamsx.mongodb/impl/include/mongo/platform/atomic_intrinsics_win32.h:118-145 | Linearizability as an invariant of every step, for both ways of retrying. |
| Atomics.StepKeepsInv | com.ibm.streamsx.mongodb/impl/include/mongo/platform/atomic_intrinsics_win32.h:118-145 | One read, failed attempt or successful attempt keeps it. |
| AtomicLoops.SwapReuse | com.ibm.streamsx.mongodb/impl/include/mongo/platform/atomic_intrinsics_gcc_sync.h:37-45 | The loop ends under any finite interference, whatever was read first; it stores the new value exactly once and returns the value it replaced. |
| AtomicLoops.FetchAndAddReuse | com.ibm.streamsx.mongodb/impl/include/mongo/platform/atomic_intrinsics_win32.h:135-145 | The same for fetchAndAdd: the value stored is the one replaced plus the increment, modulo 2^64. |
| AtomicLoops.SwapReload | com.ibm.streamsx.mongodb/impl/include/mongo/platform/atomic_intrinsics_gcc_intel.h:119-127 | The same where every retry reads again, and a read that others disturb may return anything. |
| AtomicLoops.FetchAndAddReload | com.ibm.streamsx.mongodb/impl/include/mongo/platform/atomic_intrinsics_gcc_intel.h:137-145 | The same for fetchAndAdd over atomic loads. |
| AtomicLoops.Load | com.ibm.streamsx.mongodb/impl/include/mongo/platform/atomic_intrinsics_gcc_intel.h:129-131 | The load by compare-and-swap of zero with zero returns the value and leaves the cell as it was. |
| RefCounts.SharingIsSafe | com.ibm.streamsx.mongodb/impl/include/mongo/util/shared_buffer.h:29-84 | Over every interleaving: the counter is the number of live handles and pending decrements, nothing live or being dropped refers to a freed block, no block is freed twice, and one with no reference and no drop in progress has been freed once. |
| RefCounts.SharingHappens | com.ibm.streamsx.mongodb/impl/include/mongo/util/shared_buffer.h:29-84 | Among the runs it speaks of: from the initial state a block is taken, shared, kept when one handle is dropped and freed when the other is. |
| RefCounts.BlockLives | com.ibm.streamsx.mongodb/impl/include/mongo/util/shared_buffer.h:29-84 | The same from any reachable state, all other blocks and handles being as they were. |
| RefCounts.TakeLands | com.ibm.streamsx.mongodb/impl/include/mongo/util/shared_buffer.h:54-61 | Taking ownership makes the handle the one reference of a new block with count one; no other block notices. |
| RefCounts.HandOverLands | com.ibm.streamsx.mongodb/impl/include/mongo/util/shared_buffer.h:29-40 | A handle handed to another thread is that one's to act on and nobody else's. |
| RefCounts.OthersMayNot | com.ibm.streamsx.mongodb/impl/include/mongo/util/shared_buffer.h:29-40 | A thread cannot act on a handle it does not own. |
| RefCounts.RunKeepsInv | com.ibm.streamsx.mongodb/impl/include/mongo/util/shared_buffer.h:73-84 | The account of every block holds in every reachable state. |
| RefCounts.DropLands | com.ibm.streamsx.mongodb/impl/include/mongo/base/status-inl.h:48-50 | Dropping a handle empties it and frees the block exactly if it was the last reference. |
| RefCounts.CopyLands | com.ibm.streamsx.mongodb/impl/include/mongo/base/status-inl.h:24-26 | Copying shares the block and counts exactly one reference more. |
| RefCounts.CopyAssignLands | com.ibm.streamsx.mongodb/impl/include/mongo/base/status-inl.h:28-33 | Copy assignment leaves the target with the other's block and is safe for self-assignment, which frees nothing. |
| RefCounts.MoveAssignLands | com.ibm.streamsx.mongodb/impl/include/mongo/base/status-inl.h:36-45 | Move assignment hands the reference over; assigning to itself empties the handle. |
| RefCounts.MoveFromLands | com.ibm.streamsx.mongodb/impl/include/mongo/util/shared_buffer.h:29-40 | Moving from a handle transfers the reference and touches no counter. |
| Handles.Handle.Assign | com.ibm.streamsx.mongodb/impl/include/mongo/base/status-inl.h:28-33 | On the objects themselves: the target shares the other's block, whose handles are exactly those before and the target; the old block is freed exactly if this was its last handle, and never when both share one. |
| Handles.Handle.Drop | com.ibm.streamsx.mongodb/impl/include/mongo/base/status-inl.h:48-50 | Unlinks the handle and frees the block exactly if no other handle is left. |
| Handles.Handle.Copy | com.ibm.streamsx.mongodb/impl/include/mongo/base/status-inl.h:24-26 | One handle more on the same block, counted. |
| Handles.Handle.MoveAssign | com.ibm.streamsx.mongodb/impl/include/mongo/base/status-inl.h:36-45 | The other's reference changes hands, its counter unchanged; the own block goes if it was the last. Assigned to itself, a handle gives up its block and is left empty. |
| Handles.Handle.TakeOwnership | com.ibm.streamsx.mongodb/impl/include/mongo/util/shared_buffer.h:54-61 | A new block with exactly one handle, counted as one. |
| Handles.Handle.MoveFrom | com.ibm.streamsx.mongodb/impl/include/mongo/util/shared_buffer.h:29-40 | The result holds the reference, this handle nothing, and the counter is what it was. |
| Messages.Message.AppendData | com.ibm.streamsx.mongodb/impl/include/mongo/util/net/message.h:414-431 | A first buffer gets its own length in the header, a later one is added to the first one's header; it fails exactly on a buffer the message does not own. |
| Messages.Message.SetData | com.ibm.streamsx.mongodb/impl/include/mongo/util/net/message.h:434-436 | Takes a buffer exactly if the message is empty, and then holds the bytes its header counts. |
| Messages.Message.SetDataCopy | com.ibm.streamsx.mongodb/impl/include/mongo/util/net/message.h:441-449 | A buffer of its own with length, opcode and a copy of the payload. |
| Messages.Message.Size | com.ibm.streamsx.mongodb/impl/include/mongo/util/net/message.h:340-350 | The number of all bytes, whether in one buffer or in many. |
| Messages.Message.ConcatBuffers | com.ibm.streamsx.mongodb/impl/include/mongo/util/net/message.h:358-380 | One fresh buffer with all bytes in order; the old ones are freed, each once; a message that is empty or already in one buffer is left alone. |
| Messages.Message.Reset | com.ibm.streamsx.mongodb/impl/include/mongo/util/net/message.h:396-410 | Frees exactly what is owned, each buffer once, and forgets the rest. |
| Messages.Message.Assign | com.ibm.streamsx.mongodb/impl/include/mongo/util/net/message.h:383-394 | Takes over bytes and ownership; the source keeps nothing and frees nothing. |
| Messages.Gather | com.ibm.streamsx.mongodb/impl/include/mongo/util/net/message.h:364-377 | The copy loop concatenates the pieces. |
| Messages.FreeAll | com.ibm.streamsx.mongodb/impl/include/mongo/util/net/message.h:401-405 | The free loop returns every buffer of the list once. |
| MessagePieces.AppendKeepsHeader | com.ibm.streamsx.mongodb/impl/include/mongo/util/net/message.h:414-431 | The header length stays the number of all bytes, which but for that length are the old ones followed by the new ones; the opcode stays. |
| MessagePieces.ConcatKeepsBytes | com.ibm.streamsx.mongodb/impl/include/mongo/util/net/message.h:358-380 | Concatenation keeps bytes, length and opcode, and is idempotent. |
| MessagePieces.RunKeepsBytes | com.ibm.streamsx.mongodb/impl/include/mongo/util/net/message.h:340-431 | Over any run of appends and concats, from the empty message too: the message is what it held and everything appended, in order, but for the length field, which gives the number of bytes held; the opcode is the first buffer's. |
| MessagePieces.HeaderLayout | com.ibm.streamsx.mongodb/impl/include/mongo/util/net/message.h:97-103 | Length in bytes 0 to 3, opcode in bytes 12 to 15 of a header of 16. |
| MessageOwners.EachBufferFreedOnce | com.ibm.streamsx.mongodb/impl/include/mongo/util/net/message.h:358-410 | Over any run of several messages: a buffer handed over once is at any time either held by one message or freed once, and after the destructors all have been freed as often as given. |
| MessageOwners.HeldIsNotFreed | com.ibm.streamsx.mongodb/impl/include/mongo/util/net/message.h:383-410 | What a message owns has not been freed and no other message owns it. |
| MessageOwners.StepKeepsInv | com.ibm.streamsx.mongodb/impl/include/mongo/util/net/message.h:358-436 | Every call conserves buffers: given = held + freed. |
| MessageOwners.SetDataLands | com.ibm.streamsx.mongodb/impl/include/mongo/util/net/message.h:434-436 | Setting data succeeds exactly on an empty message, which then holds the buffer and owns it if told to. |
| MessageOwners.AppendLands | com.ibm.streamsx.mongodb/impl/include/mongo/util/net/message.h:414-431 | Appending succeeds exactly unless the message holds a buffer it does not own, which adds one buffer to those owned. |
| MessageOwners.ConcatLands | com.ibm.streamsx.mongodb/impl/include/mongo/util/net/message.h:358-380 | Concatenating frees a list and owns the new buffer instead; anything else stays. |
| MessageOwners.AssignLands | com.ibm.streamsx.mongodb/impl/include/mongo/util/net/message.h:383-394 | Assigning succeeds exactly from an owning message to an empty one, and moves what was owned. |
| MessageOwners.ResetLands | com.ibm.streamsx.mongodb/impl/include/mongo/util/net/message.h:396-410 | Resetting frees what is owned and leaves the message empty. |
| GeoBoxes.FindMinAndMax | com.ibm.streamsx.mongodb/impl/include/mongo/geo/geometry.h:160-177 | The loop from the extreme doubles finds the smallest and largest coordinate. |
| GeoBoxes.MinMaxAreTight | com.ibm.streamsx.mongodb/impl/include/mongo/geo/geometry.h:160-177 | They are the greatest lower and the least upper bound; with no points the starting values are, too. |
| GeoLimits.MaxDoubleIsLargest | com.ibm.streamsx.mongodb/impl/include/mongo/geo/geometry.h:167-168 | The starting value is the largest finite double. |
| GeoBoxes.ComputeBoxOfPoints | com.ibm.streamsx.mongodb/impl/include/mongo/geo/geometry.h:137-157 | Dimension by dimension, the box of the points. |
| GeoBoxes.BoxIsLeast | com.ibm.streamsx.mongodb/impl/include/mongo/geo/geometry.h:60-69 | A box holds all the points if and only if it holds their bounding box. |
| GeoBoxes.MergeBoxes | com.ibm.streamsx.mongodb/impl/include/mongo/geo/geometry.h:180-198 | The merged box, NULL exactly for an empty list. |
| GeoBoxes.MergeIsBoxOfAll | com.ibm.streamsx.mongodb/impl/include/mongo/geo/geometry.h:180-198 | Merging the boxes of lists of points is the box of all the points, also where lists are empty. |
| GeoBoxes.MergeIsSpanOfAll | com.ibm.streamsx.mongodb/impl/include/mongo/geo/geometry.h:180-198 | Merging boxes that span lists of points gives the span of all the points, whatever the order of the corners. |
| GeoAnswers.AnswerIsLeastBox | com.ibm.streamsx.mongodb/impl/include/mongo/geo/geometrycollection.h:141-176 | For every nested collection without given boxes: the answer is the box of all points of the tree, and a box holds every point exactly when it holds the answer. |
| GeoAnswers.AnswerIsBoxOfExtent | com.ibm.streamsx.mongodb/impl/include/mongo/geo/geometrycollection.h:141-176 | With boxes given at any depth, ordered or not: in each dimension the answer reaches from the least of the deciding lower coordinates to the greatest of the upper ones, of all levels at once. |
| GeoAnswers.AnswerExistsIff | com.ibm.streamsx.mongodb/impl/include/mongo/geo/geometrycollection.h:171-176 | There is an answer, rather than a NULL dereference, if and only if no collection outside a given box is empty. |
| GeoObjects.GeoObj.GetBoundingBox | com.ibm.streamsx.mongodb/impl/include/mongo/geo/geometrycollection.h:141-146 | Every call gives the answer of the parsed tree, so it never changes; a cached box is not touched. |
| GeoObjects.GeoObj.ComputeBoundingBox | com.ibm.streamsx.mongodb/impl/include/mongo/geo/geometrycollection.h:170-176 | Computes that answer, filling the caches of the members. |
| GeoObjects.GeoObj.constructor | com.ibm.streamsx.mongodb/impl/include/mongo/geo/geometrycollection.h:129-133 | The cache starts as the box the document gives. |
| GeoObjects.Polygon.GetBoundingBox | com.ibm.streamsx.mongodb/impl/include/mongo/geo/polygon.h:144-149 | The same for a polygon. |
| GeoObjects.Polygon.Copy | com.ibm.streamsx.mongodb/impl/include/mongo/geo/polygon.h:123-133 | The copy has the same shape and the box the original has by now. |
| GeoObjects.Polygon.Assign | com.ibm.streamsx.mongodb/impl/include/mongo/geo/polygon.h:135-142 | Swapping with a copy gives the target the other's shape and box and leaves the other alone, also for self-assignment. |
| GeoObjects.JoinPoints | com.ibm.streamsx.mongodb/impl/include/mongo/geo/polygon.h:151-160 | The nested loops give the points of all rings, in order. |
| GeoJson.GeometryBack | com.ibm.streamsx.mongodb/impl/include/mongo/geo/parser-impl.h:36-62 | Every geometry parses back from its document: kind, points in order through all levels, given box, members of nested collections. |
| GeoJson.GeometryBackThroughBytes | com.ibm.streamsx.mongodb/impl/include/mongo/geo/polygon.h:167-188 | The same through the bytes of the BSON document. |
| GeoJson.FieldNamesInAscii | com.ibm.streamsx.mongodb/impl/include/mongo/geo/constants.h:26-29 | The names of the fields, in their bytes. |
| GeoJson.TypeNamesInAscii | com.ibm.streamsx.mongodb/impl/include/mongo/geo/constants.h:35-40 | The names of the simpler types, in their bytes. |
| GeoJson.MultiNamesInAscii | com.ibm.streamsx.mongodb/impl/include/mongo/geo/constants.h:36-37 | The names of the lists of points and of lines, in their bytes. |
| GeoJson.LongNamesInAscii | com.ibm.streamsx.mongodb/impl/include/mongo/geo/constants.h:34-38 | The names of the collection and of the list of polygons, in their bytes. |
| GeoJson.KindNames | com.ibm.streamsx.mongodb/impl/include/mongo/geo/constants.h:34-40 | Which name each kind of geometry goes by. |
| GeoJson.PointDocument | com.ibm.streamsx.mongodb/impl/include/mongo/geo/point.h:222-226 | The whole document of a point with a box. |
| GeoJson.RingsBack | com.ibm.streamsx.mongodb/impl/include/mongo/geo/polygon.h:177-188 | Rings and points come back in order. |
| GeoJson.PolygonsBack | com.ibm.streamsx.mongodb/impl/include/mongo/geo/multipolygon.h:126-146 | So do the polygons of a multi-polygon. |
| GeoJson.BoxBack | com.ibm.streamsx.mongodb/impl/include/mongo/geo/boundingbox.h:174-216 | A box survives the flat array of twice n numbers. |
| GeoCodec.PolygonThereAndBack | com.ibm.streamsx.mongodb/impl/include/mongo/geo/polygon.h:167-188 | createBSON followed by parseLinearRings returns the rings. |
| GeoCodec.CreatePolygon | com.ibm.streamsx.mongodb/impl/include/mongo/geo/polygon.h:167-175 | The loop over the rings builds the document of the polygon. |
| GeoCodec.CreateLineString | com.ibm.streamsx.mongodb/impl/include/mongo/geo/linestring.h:141-148 | The loop over the points builds the document of the line string. |
| GeoCodec.ParseCoords | com.ibm.streamsx.mongodb/impl/include/mongo/geo/geometry.h:101-108 | The loop reads the numbers, and fails exactly on one that is not a double. |
| GeoCodec.ParsePointArray | com.ibm.streamsx.mongodb/impl/include/mongo/geo/geometry.h:121-129 | The loop parses every point or fails. |
| GeoCodec.ParseLinearRings | com.ibm.streamsx.mongodb/impl/include/mongo/geo/polygon.h:177-188 | The loop parses every ring or fails. |
| GeoCodec.ParseAllPolygons | com.ibm.streamsx.mongodb/impl/include/mongo/geo/multipolygon.h:126-146 | The loops parse every polygon or fail. |
| GeoCodec.ReadBox | com.ibm.streamsx.mongodb/impl/include/mongo/geo/boundingbox.h:173-199 | The constructor reads 2n numbers into two corners, and fails exactly on another length or a number that is no double. |
| GeoCodec.ToFlatArray | com.ibm.streamsx.mongodb/impl/include/mongo/geo/boundingbox.h:206-216 | The loops write the lower corner, then the upper one. |
| GeoCodec.TypeNameIsNotChecked | com.ibm.streamsx.mongodb/impl/include/mongo/geo/geoobj.h:63-70 | The polygon constructor agrees with the parser if and only if the document names the polygon type: the check accepts every string. |
| GeoCodec.MultiLineStringTakenForPolygon | com.ibm.streamsx.mongodb/impl/include/mongo/geo/geoobj.h:63-70 | Every multi-line-string document is accepted as a polygon. |
| Orderings.Make | com.ibm.streamsx.mongodb/impl/include/mongo/bson/ordering.h:62-76 | Accepts exactly objects of at most 32 fields; bit i of the word is set exactly if field i exists and the number it stands for is below zero, a double being the real number of its sign, exponent and fraction. |
| Orderings.GetIsDirection | com.ibm.streamsx.mongodb/impl/include/mongo/bson/ordering.h:46-53 | get(i) is -1 exactly for the negative fields, and descending() agrees. |
| Orderings.NumberReadsBack | com.ibm.streamsx.mongodb/impl/include/mongo/bson/bsonelement.h:635-646 | The sign read off an element's bytes is the sign of its number; minus zero, NaN and non-numbers are not negative. |
| Orderings.NegativeIs | com.ibm.streamsx.mongodb/impl/include/mongo/bson/bsonelement.h:635-646 | The sign of every type of number is that of the number it stands for; a NaN counts as 0, minus infinity is negative. |
| Doubles.BelowZeroIs | com.ibm.streamsx.mongodb/impl/include/mongo/bson/bsonelement.h:635-646 | The real number of a double is below zero exactly for the bit patterns above minus zero up to minus infinity; no NaN, no zero and not plus infinity. |
| Doubles.One | com.ibm.streamsx.mongodb/impl/include/mongo/bson/bsonelement.h:635-646 | The pattern of one stands for 1. |
| Doubles.MinusTwo | com.ibm.streamsx.mongodb/impl/include/mongo/bson/bsonelement.h:635-646 | The pattern of minus two stands for -2. |
| Orderings.OrBits | com.ibm.streamsx.mongodb/impl/include/mongo/bson/ordering.h:70-72 | Or sets bits and clears none. |
| Endian.SwapReversesBytes | com.ibm.streamsx.mongodb/impl/include/mongo/platform/endian.h:144-158 | The mask-and-shift swaps reverse the bytes, for all widths. |
| Endian.SwapTwice | com.ibm.streamsx.mongodb/impl/include/mongo/platform/endian.h:144-158 | Each swap is its own inverse. |
| DataViews.DataView.WriteLE | com.ibm.streamsx.mongodb/impl/include/mongo/base/data_view.h:93-96 | On either host the bytes stored are the number's, least significant first, and no other byte changes. |
| DataViews.DataView.WriteBE | com.ibm.streamsx.mongodb/impl/include/mongo/base/data_view.h:98-101 | The same, most significant first. |
| DataViews.DataView.ReadLE | com.ibm.streamsx.mongodb/impl/include/mongo/base/data_view.h:57-60 | On either host the number is the one its bytes spell, least significant first. |
| DataViews.DataView.ReadBE | com.ibm.streamsx.mongodb/impl/include/mongo/base/data_view.h:62-65 | The same, most significant first. |
| DataViews.WrittenLEReadsBack | com.ibm.streamsx.mongodb/impl/include/mongo/base/data_view.h:57-96 | A number written little-endian reads back at that offset, and swapped when read big-endian. |
| DataViews.WrittenBEReadsBack | com.ibm.streamsx.mongodb/impl/include/mongo/base/data_view.h:62-101 | The same with the orders exchanged. |
| DataViews.OthersUnchanged | com.ibm.streamsx.mongodb/impl/include/mongo/base/data_view.h:83-91 | Numbers elsewhere in the buffer are not changed. |
| DataViews.StoredInOrder | com.ibm.streamsx.mongodb/impl/include/mongo/platform/endian.h:109-134 | The converters make what is stored independent of the host. |
| DataViews.HostOrders | com.ibm.streamsx.mongodb/impl/include/mongo/platform/endian.h:109-134 | The order in which either kind of host keeps the bytes of a number, on an instance. |
| DataViews.ReadInOrder | com.ibm.streamsx.mongodb/impl/include/mongo/platform/endian.h:109-134 | And what is read. |
| DataViews.StoredAsLE | com.ibm.streamsx.mongodb/impl/include/mongo/base/data_view.h:93-96 | For every width and number below its range: the bytes of the number's word, as integers, are the little-endian bytes the encoder writes. |
| DataViews.WordOfItsValue | com.ibm.streamsx.mongodb/impl/include/mongo/base/data_view.h:57-60 | Every word is the word of the number its bytes spell. |
| DataViews.ValueOf16 | com.ibm.streamsx.mongodb/impl/include/mongo/base/data_view.h:57-60 | For a word of 16 bits that number is the unsigned one the machine has for it. |
| Bytes.FromLEInvertsLE | com.ibm.streamsx.mongodb/impl/include/mongo/base/data_view.h:57-60 | Little-endian bytes spell the number they were made from. |

## Left out

- Requests to the buffer beyond 2^30 bytes, where the doubling loop would overflow a 32-bit int: the class methods require less. Allocation failure.
- StackAllocator and the number formatting of StringBuilder: easy members only.
- BSONElement::size() and size(maxLen) have no body in the headers: the first follows the layout comment of bsonobj.h, the second is a parameter of the checked iteration. endField is left out, as no stream label is pending.
- BsonIterator.ForEach: the plain next() trusts that the bytes are a document and reads on past them if they are not (StaysInsideIff says exactly when); a read outside the bytes at hand is Failed here.
- The cache inside fieldNameSize, decouple, the ownership that obj() hands over, and the iterator-based append overloads.
- Appending after done, NULs in regex options or in appendUndefined names, and appendBinData called with subtype 2: preconditions or unguarded misuse.
- BufBuilders.BufBuilder.SetLen: requires that the length stays within the allocation and clear of the reserved bytes, where the source stores any number.
- ObjBuilders.ObjBuilder.Append: a double is its eight bytes; its numeric meaning is not modelled, except for its sign in Orderings.
- SPL complex, decimal and bounded collection types; ustring and xml are the rstring they are converted to. The blob round trip is not claimed, because the decoder never takes its branch.
- The product of a timestamp's seconds with 1000 that overflows 64 bits is undefined in C++; it is taken to wrap.
- SplRoundTrip.RoundTrip: the exception of the builders at 64 MiB is not part of the encoder, which has no size; it is proved of the builders (ScriptWriters.WriteDocument).
- The enumeration order of SPL sets and maps and the conversions between doubles and integers or floats are parameters. Adding a key a map already has overwrites; an encoder writes each key once.
- Atomics.CallsAreLinearizable: hardware memory ordering, inline assembly and the vendor intrinsics are not modelled; compare-and-swap is one atomic step.
- RefCounts.SharingIsSafe: fewer than 2^32 handles at a time, so that the counter cannot wrap.
- Messages.Message.SetData: requires that the header's length is at least a header and at most the allocation, where the source trusts the buffer.
- Messages.Message.SetDataCopy: the request and reply identifiers of the header are whatever the new memory holds, as in the source.
- Sockets, the sending of a Message and the header's other fields.
- SplStored.IntegerArrives, SplStored.FloatArrives: the runtime's conversions between doubles and integers are taken to be exact on whole numbers in range, up to 2^53 for floats; other doubles are left to the runtime.
- GeoBoxes.FindMinAndMax: coordinates are reals within the range of a double; NaN and infinities are left out.
- GeoJson.GeometryBack: the constructors of the coordinate types are not part of this model, so the number of coordinates of a single point is not checked; Array() reads the items in the order of the document, whose names are the indices.
- GeoCodec.CreatePolygon: a ring's document is the one createBSON made from its points; a ring parsed from a document with more fields would keep those.
- Point, LineString, MultiPoint, MultiLineString and MultiPolygon have the same cache as Polygon and share the model GeoObj; only Polygon's copying is written out.
- DataViews: a signed number is its bits, as the casts of the source leave it; floats and doubles likewise.
- Connections, cursors, authentication, GridFS, bulk writes, the operators' templates, logging and metrics.
- JParse, validateBSON, woCompare, getFieldDotted and OID generation: documented in the headers, their bodies are not part of this model.
