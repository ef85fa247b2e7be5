# A verified model of lwnode's hard core

lwnode puts the V8 API on top of the Escargot JavaScript engine. Most of it forwards calls. This project
models, in Dafny, the parts that do not, and proves what they are for:

- **UTF-8 text** (`Utf8`, `V8String`, `RoundTrip`, `StringWrite`, `FileReader`, `SteadyReads`).
  `String::WriteUtf8` and `String::Write` fill a bounded buffer; `readUTF8Sequence` decodes by accumulating and
  subtracting one constant; `builtinHelperFileRead` decodes a file optimistically as Latin-1, piece by piece, and
  re-reads it as UTF-8 when that fails.
- **The test agents** (`Agents`, `AgentProtocol`, `AgentRuns`). Worker threads and the main thread share
  message slots and a report queue under one mutex. `Agents.Shared` has one method per critical section,
  `AgentProtocol` is the transition system of all interleavings of any number of workers, and `AgentRuns` shows
  that the methods carry out its steps.
- **Property enumeration** (`Decimal`, `Sorting`, `PropertyNames`, `PropertyNamesTheorems`, `PropertyNamesOnChain`).
  `Object::GetPropertyNames` refines a recursive relation `Result`; what follows about the array is stated on the
  objects, their prototype links and the flags.
- **Ownership of storage cells** (`Handles`, `CellAccounts`, `Programs`, `PersistentContainers`, `Operations`,
  `HandleWorld`, `ClearTheorems`). `Global` handles, `PersistentValueMap` and `PersistentValueVector` pass raw cells around by
  hand; every registration keeps exactly one owner over whole runs, with callbacks that re-enter the map while
  it is being cleared.

## What the model says about the code

- Bytes past the end of a read are arbitrary in the model, as the decoder looks up to three bytes past what
  was read. A file of complete sequences is read exactly whatever they are and however the reads fall
  (`FileReader.CompleteFileIsReadExactly`). For other files that can fail. With reads that are short only at the
  end of the file, which is what `fread` delivers unless there is an error, `SteadyReads.SteadilyReadCorrectlyIff`
  says for exactly which files; when errors may cut any read short, `FileReader.ReadCorrectlyIff` does. The smallest
  such file is a lone lead byte (`SteadyReads.LoneLeadByteMisleadsSteadily`); `SteadyReads.CutByAShortReadOnly`
  separates the two conditions. With a full 512-byte read the bytes lie past the array itself; what the C++
  language says about such an access is not part of this model.
- `readUTF8Sequence` and `readAUtf8Sequence` look at the shape of a sequence only, so overlong forms and encoded
  surrogates are accepted; `Utf8.ShapeIsEncodingIff` says which of the accepted sequences RFC 3629 allows.
- `broadcast` can be left waiting for ever. When it posts, some schedule lets it return if and only if every
  registered worker is running and not past its loop (`AgentProtocol.BroadcastCanReturnIff`), and it cannot get stuck
  in any schedule if and only if every registered worker is running and about to test or to take
  (`AgentProtocol.BroadcastNeverStuckIff`): a worker still in its script or callback may leave before it looks again
  (`AgentProtocol.ALeavingWorkerStrandsTheBroadcast`). At any later moment it can still return if and only if no
  message is in the slot of a worker that no longer looks (`AgentProtocol.ReachableCanReturnIff`).
- `GetPropertyNames` does not look at the attributes of symbols, and an own property that is filtered out does
  not hide one of the same name on a prototype. The model follows the code.
- The array that `GetPropertyNames` returns is independent of the sorting algorithm exactly when indices are
  converted to strings or no object brings two new names for one index (`PropertyNamesTheorems.ArrayDeterminedIff`),
  which the engine's convention of one value per index guarantees (`PropertyNamesTheorems.CanonicalNamesNeverTie`).
  Converted, it has no repeated key exactly when no index is offered in two spellings on the chain
  (`PropertyNamesTheorems.ConvertedKeysDistinctIff`). `PropertyNamesTheorems.TwoNamesForOneIndex` is an object for which
  both fail.
- The comments of include/v8.h speak of a new storage cell for each handle. In the default build
  `V8::GlobalizeReference` returns the address it was given and counts it in a registry instead. The model
  follows the code: a cell may be registered several times, and what is conserved is registrations.
- `String::Write` ends with a NUL whenever room is left, also when it wrote no characters; `WriteUtf8` does so
  only after the whole string. A negative length or capacity stands for `kMaxLength`; the encoding of a very long string
  can exceed it, and `WriteUtf8` then stops early like with any other capacity.
- A worker that ends before the main thread has registered it is never marked, and the main thread then waits for
  ever at the end (`AgentProtocol.ClosingJoinsIff`).

The engine's `toStdUTF8String` is not part of this model. It is taken to be section 3 of RFC 3629 applied to the
code points of the UTF-16 units: pairs are joined, a lone surrogate is encoded in three bytes, or as U+FFFD when
`REPLACE_INVALID_UTF8` is given. `kMaxLength` is the value for 64-bit pointers.

Methods with loops are proved against functions or relations on values, and the theorems are about those.
Where a contract speaks of such a function, a second one says the same of the arguments, the buffer or the fields.
`old`-style contracts on the classes say what the new state is; the invariants they keep are `Conserved`
(handles) and `Inv` (agents). `RoundTrip.WriteThenRead` and `StringWrite.WriteRepeatedly` are callers, for statements
that span several calls.

## Model

| member | source | states |
|---|---|---|
| Utf8.MaskTests | sample/escargot-sample.cc:122-135 | `LeadLength` and `Continuation`, which the model uses, are the five mask tests, on all 256 bytes. |
| Utf8.ReadUTF8Sequence | sample/escargot-sample.cc:118-162 | Valid exactly when the bytes have the shape of a sequence; then the payload bits, the length, and the pointer past it; otherwise -1, one byte on, and `charlen` untouched. Only the bytes the code looks at need exist. |
| Utf8.Accumulate | sample/escargot-sample.cc:146-161 | Adding and shifting modulo 2^32 and subtracting the table's constant leaves exactly the payload bits. |
| Utf8.MarkersAreTheOffset | sample/escargot-sample.cc:110-116 | The constant is what the marker bits add up to, and the sum stays below 2^28 before the last byte, so nothing wraps around. |
| Utf8.ReadAUtf8Sequence | src/api-data.cc:2058-2089 | The length of the sequence that starts and ends inside the bound, or -1 when there is none. |
| Utf8.BoundedAgreesWithUnbounded | src/api-data.cc:2058-2089 | The bounded recogniser accepts exactly what the unbounded one accepts and what ends within the bound, with the same payload. |
| Utf8.EncodedShape | sample/escargot-sample.cc:118-162 | Every encoded code point, whatever follows it, is recognised with its length and decodes to itself. |
| Utf8.ShapeIsEncodingIff | sample/escargot-sample.cc:118-162 | A recognised sequence is the encoding of its payload if and only if it is not overlong and not above U+10FFFF. |
| Utf8.DecodeUndoesEncode | sample/escargot-sample.cc:118-162 | Repeated decoding of encoded text gives its code points and leaves exactly what followed it to decode. |
| Utf8.EncodeInjective | sample/escargot-sample.cc:118-162 | Different texts have different encodings. |
| V8String.CodePointsKeepUnits | src/api-data.cc:2130-2131 | Taking the code points of UTF-16 units loses nothing: encoding them as UTF-16 again gives the units back. |
| V8String.UnitsKeepCodePoints | src/api-data.cc:2130-2131 | Text without surrogates, encoded as UTF-16, has exactly its code points: pairs are joined. |
| V8String.OnlyLoneSurrogatesAreReplaced | src/api-data.cc:2130-2131 | `REPLACE_INVALID_UTF8` turns lone surrogates into U+FFFD and changes nothing else. |
| V8String.EncodedLength | src/api-data.cc:2049-2056 | The UTF-8 length lies between one and three bytes a unit, does not depend on replacing lone surrogates, and never overflows an int. |
| V8String.IsAsciiString | src/api/es-helper.cc:1021-1038 | True exactly for a string held in one-byte form with no character above 127. |
| V8String.AsciiIsItsEncoding | src/api-data.cc:2124-2128 | An ASCII string is its own UTF-8 encoding, which is what the fast path relies on. |
| V8String.Utf8Length | src/api-data.cc:2049-2056 | Both branches return the length of the UTF-8 encoding. |
| V8String.CopyUtf8Sequences | src/api-data.cc:2091-2110 | Copies the whole sequences the bounded source starts with and nothing else, adds their number and bytes to the caller's counters, and leaves the rest of the buffer alone. |
| V8String.WholeSequencesFit | src/api-data.cc:2091-2110 | Stopping at the first sequence cut by the bound copies the longest prefix of whole code points that fits. |
| V8String.WriteAscii | src/api-data.cc:2124-2128 | The fast path meets the same contract as the general path. |
| V8String.WriteSequences | src/api-data.cc:2129-2134 | The general path writes the encoding of the longest fitting prefix of whole code points. |
| V8String.WriteUtf8 | src/api-data.cc:2112-2147 | Any string, capacity and options: at most `capacity` bytes (kMaxLength for a negative one) are written, one more code point would not fit when it stops early, `nchars` counts the code points, a NUL follows exactly when all was written, room remains and it was not refused, and the rest of the buffer is untouched. |
| V8String.LongestFitUnique | src/api-data.cc:2124-2134 | That prefix is unique, so the outcome does not depend on the path taken or on the width the string is stored in. |
| V8String.MonotoneInCapacity | src/api-data.cc:2112-2134 | A larger capacity only extends the text. |
| V8String.LittleIsWasted | src/api-data.cc:2091-2134 | Stopping early leaves at most three bytes unused, and the text is complete if and only if it fits. |
| V8String.Utf8LengthSuffices | src/api-data.cc:2049-2056 | A capacity is enough if and only if it is at least what `Utf8Length` returns, whatever the options, and then that many bytes are written. |
| RoundTrip.ShapeIsReadable | sample/escargot-sample.cc:118-144 | Reading a complete sequence looks at no byte after it. |
| RoundTrip.ReadSequences | sample/escargot-sample.cc:118-162 | Reading n times from memory that starts with n encoded code points returns them and stops behind the last one; the memory may end there. |
| RoundTrip.WriteThenRead | src/api-data.cc:2112-2147 | Any string, capacity and options: reading back the buffer that `WriteUtf8` left, without the NUL, returns exactly the first `nchars` code points and stops at the last byte of the text. |
| StringWrite.Widen | src/api-data.cc:2239-2244 | The loop over one-byte characters puts the same units into the buffer as the copy of two-byte ones. |
| StringWrite.Write | src/api-data.cc:2224-2259 | Any start (negative ones too), length, options and null buffer: the smaller of `length` and what is left from `start` is written, all that is left for a negative length; a NUL follows where room is left unless it is refused; every other unit of the buffer is as before, whichever width the string is stored in. |
| StringWrite.PiecesFitTogether | src/api-data.cc:2224-2259 | Successive calls, each from where the last one stopped, write consecutive parts of the string as far as there is room. |
| StringWrite.PiecesReassemble | src/api-data.cc:2224-2259 | They reassemble the string exactly if and only if the buffers together have room for it. |
| StringWrite.WriteRepeatedly | src/api-data.cc:2224-2259 | Calling `Write` again and again, with `start` advanced by each result, and putting together what each call left in the buffer gives those pieces. |
| FileReader.File.Fread | sample/escargot-sample.cc:173-176 | A read delivers what was asked for or all that is left, or less when errors may cut it short, and nothing only at the end; the buffer past it is not promised to hold anything. |
| FileReader.DecodePiece | sample/escargot-sample.cc:177-190 | One piece of the first pass: stops at the first invalid sequence or character above 255, otherwise appends the piece's characters. |
| FileReader.TakePiece | sample/escargot-sample.cc:176-194 | Rewinds at the moment the first pass fails and from then on appends raw bytes; what has been read so far is accounted for. |
| FileReader.FileRead | sample/escargot-sample.cc:164-224 | Ends with the Latin-1 string of all pieces of the whole file, or with the bytes of the whole file after some piece failed, or reports that there is no file; only the last piece is short unless reads fail; for a file of complete sequences the text is the file's. |
| FileReader.FullReadsHave512 | sample/escargot-sample.cc:173-176 | Without errors every piece but the last has the 512 bytes of the buffer. |
| FileReader.CompleteCannotMislead | sample/escargot-sample.cc:177-190 | In a file of complete sequences what follows a cut begins with a continuation byte, which no first pass accepts. |
| FileReader.TakenAsLatin1Iff | sample/escargot-sample.cc:177-190 | Such a file is taken as Latin-1 if and only if all its characters are and no read ends inside a sequence. |
| FileReader.ReadCorrectlyIff | sample/escargot-sample.cc:164-224 | For any bytes: every way of cutting the file into reads, short ones included, and every content past them give the right text if and only if the file has no truncated sequence among Latin-1 text. |
| SteadyReads.SteadilyReadCorrectlyIff | sample/escargot-sample.cc:173-194 | For any bytes, with reads of 512 bytes but for the last: every content past them gives the right text if and only if some 512-byte part is not Latin-1 text up to a truncated last sequence, or no part ends in a truncated sequence. |
| SteadyReads.SteadyFileIsReadExactly | sample/escargot-sample.cc:164-224 | Any file outside that condition, well-formed or not, gives the text that decoding its bytes gives. |
| SteadyReads.LoneLeadByteMisleadsSteadily | sample/escargot-sample.cc:177-190 | The one-byte file C3 is misread for some content past it. |
| SteadyReads.CutByAShortReadOnly | sample/escargot-sample.cc:173-190 | The file C3 41 is misread only when a read stops between its bytes. |
| FileReader.LoneLeadByteMisleads | sample/escargot-sample.cc:177-190 | The file C3, followed in the buffer by A9, is read as U+00E9. |
| FileReader.CompleteFileIsReadExactly | sample/escargot-sample.cc:164-224 | A file of complete sequences gives its text, however the reads fall and whatever lies behind them. |
| FileReader.Utf8FileIsReadExactly | sample/escargot-sample.cc:164-224 | In particular a UTF-8 file gives its code points. |
| Agents.Shared.PushWorker | sample/escargot-sample.cc:528-532 | A new slot goes to the end, with no message, running and not ended. |
| Agents.Shared.CheckRunning | sample/escargot-sample.cc:457-470 | The worker's own `running`; false when it is not registered yet. |
| Agents.Shared.TakeMessage | sample/escargot-sample.cc:473-483 | Returns the worker's own message and empties that slot only. |
| Agents.Shared.MarkEnded | sample/escargot-sample.cc:519-524 | The worker's own slot has `ended` set and is otherwise as before, and so are the other slots. |
| Agents.Shared.PostMessage | sample/escargot-sample.cc:554-560 | The message is in every slot. |
| Agents.Shared.ThereIsNoMessage | sample/escargot-sample.cc:563-572 | True exactly when every slot is empty. |
| Agents.Shared.Report | sample/escargot-sample.cc:584-596 | The report goes to the end of the queue. |
| Agents.Shared.Leaving | sample/escargot-sample.cc:598-611 | Clears `running` in the worker's own slot only. |
| Agents.Shared.GetReport | sample/escargot-sample.cc:622-635 | The oldest report leaves the queue; null when there is none. |
| Agents.Shared.EveryThreadIsEnded | sample/escargot-sample.cc:1528-1541 | True exactly when every slot is marked ended. |
| AgentRuns.PerformMain | sample/escargot-sample.cc:528-582 | The critical sections of the main thread take the shared variables where the transition system says. |
| AgentRuns.PerformWorker | sample/escargot-sample.cc:456-524 | So do those of a worker. |
| AgentRuns.Play | sample/escargot-sample.cc:429-635 | Every run of the transition system is carried out by them, so what is proved of runs holds of the shared vector and queue. |
| AgentProtocol.StepKeepsInv | sample/escargot-sample.cc:433-635 | Every step, by any thread in any order, keeps the invariant. |
| AgentProtocol.RunKeepsInv | sample/escargot-sample.cc:433-635 | So does every run. |
| AgentProtocol.TakenAreTheBroadcasts | sample/escargot-sample.cc:456-582 | In every run, what a worker has taken and what is in its slot is exactly the broadcasts since it was registered, in order, each once. |
| AgentProtocol.BroadcastOverwritesNothing | sample/escargot-sample.cc:554-579 | Whenever a broadcast can post, every slot is empty. |
| AgentProtocol.BroadcastReturnsWhenTaken | sample/escargot-sample.cc:562-582 | When `broadcast` returns, every registered worker has taken that payload, as its latest. |
| AgentProtocol.BroadcastCanReturnIff | sample/escargot-sample.cc:554-582 | It can return if and only if, at posting, every registered worker is running and not past its loop. |
| AgentProtocol.BroadcastNeverStuckIff | sample/escargot-sample.cc:456-582 | Every continuation that still waits for it can still return if and only if, at posting, every registered worker is running and about to test or to take. |
| AgentProtocol.ALeavingWorkerStrandsTheBroadcast | sample/escargot-sample.cc:598-611 | After one worker has been registered and is still in its script, a broadcast can return and can also get stuck. |
| AgentProtocol.ReachableCanReturnIff | sample/escargot-sample.cc:562-579 | In every reachable state in which a broadcast waits, it can return if and only if no message is in the slot of a worker that no longer looks. |
| AgentProtocol.StuckForever | sample/escargot-sample.cc:562-579 | A message nobody will take keeps the broadcast waiting in every continuation. |
| AgentProtocol.CompletingRun | sample/escargot-sample.cc:456-579 | When nobody is stuck, some schedule of the workers ends the wait. |
| AgentProtocol.ReportsAreFifo | sample/escargot-sample.cc:584-635 | Reports returned followed by those queued are the reports pushed, in order. |
| AgentProtocol.FlagsChangeOnce | sample/escargot-sample.cc:519-524 | Slots keep their place, a cleared `running` stays cleared and a set `ended` stays set. |
| AgentProtocol.PastTheLoopForGood | sample/escargot-sample.cc:456-524 | A worker past its loop never re-enters it and takes nothing more. |
| AgentProtocol.JoinOnlyWhenAllAreGone | sample/escargot-sample.cc:1527-1548 | The main thread joins only when every worker ever created is past its loop for good and has a slot marked ended. |
| AgentProtocol.EndMarksTheSlot | sample/escargot-sample.cc:519-524 | The last step of a worker sets `ended` in its slot and changes no other field or slot. |
| AgentProtocol.EndedForGood | sample/escargot-sample.cc:519-524 | A worker that had a slot when it ended has it marked in every later state. |
| AgentProtocol.MarkedByEnd | sample/escargot-sample.cc:519-524 | A slot is marked only because its worker ended while it had the slot. |
| AgentProtocol.ClosingJoinsIff | sample/escargot-sample.cc:1527-1548 | The wait at the end is over if and only if every worker ever created has ended while it had a slot. |
| Decimal.ValueOfNumeral | src/api-data.cc:1342-1345 | The decimal numeral of an index denotes that index. |
| Decimal.NumeralIsIndex | src/api-data.cc:1319-1320 | A converted index is recognised as the same index. |
| Sorting.SortUnique | src/api-data.cc:1337-1341 | With distinct keys every sorting algorithm gives the same order. |
| Sorting.SortedKeysUnique | src/api-data.cc:1337-1341 | Repeated keys or not, the keys come in the same order. |
| Sorting.TwoSorts | src/api-data.cc:1337-1341 | With a repeated key there are two admissible orders. |
| PropertyNames.PushUniqueValue | src/api-data.cc:1250-1258 | The value is in the set and, if it was not before, at the end of the vector. |
| PropertyNames.CollectOne | src/api-data.cc:1293-1333 | A new name that passes the filters as coded goes into the vector of its kind, anything else changes nothing. |
| PropertyNames.CollectOwn | src/api-data.cc:1283-1334 | The set and the three vectors hold exactly the newly seen names that pass, split by kind, in enumeration order. |
| PropertyNames.RefusedKindsAreEmpty | src/api-data.cc:1336-1363 | The vectors whose pushing is skipped are empty anyway. |
| PropertyNames.PushIndices | src/api-data.cc:1337-1350 | The indices are pushed in a sorted order, as strings if that is asked for. |
| PropertyNames.PushLevel | src/api-data.cc:1336-1363 | Indices sorted, then strings, then symbols are pushed. |
| PropertyNames.GetPropertyNames | src/api-data.cc:1260-1385 | The array is one that the recursive relation allows, with its indices converted: for each object along the chain its new indices in sorted order, its new strings, its new symbols. |
| PropertyNamesOnChain.KeysOnTheChain | src/api-data.cc:1282-1373 | With prototypes, a key is in the array if and only if some object that the prototype links lead to, at whatever distance, has an own property with that key whose attributes and kind the flags ask for. |
| PropertyNamesOnChain.OwnKeysOnly | src/api-data.cc:1365-1367 | For own keys, if and only if the object itself has one. |
| PropertyNamesOnChain.WantedIff | src/api-data.cc:1298-1332 | What passes the filters, on the fields of the property and the flags of the query. |
| PropertyNamesOnChain.KindIsIndexIff | src/api-data.cc:1319-1320 | The index keys are the numbers and canonical numerals below 2^32 - 1. |
| PropertyNamesOnChain.ConvertedTo | src/api-data.cc:1342-1345 | Conversion replaces every index by its numeral and changes nothing else. |
| PropertyNamesOnChain.KindsInOrder | src/api-data.cc:1336-1363 | What an object adds is indices, then strings, then symbols. |
| PropertyNamesOnChain.EnumerationOrderKept | src/api-data.cc:1353-1363 | Two new strings, or two new symbols, of an object come in the order of enumeration. |
| PropertyNamesOnChain.TheLastObjectIsVisited | src/api-data.cc:1365-1372 | An object without properties whose prototype, the last of the chain, has one: its key is returned. |
| PropertyNames.OneRound | src/api-data.cc:1282-1373 | One round of the loop adds exactly what the relation allows for one object, and the chain goes on with the names seen so far. |
| PropertyNames.GetOwnPropertyNames | src/api-data.cc:1392-1401 | The same for own keys with indices included. |
| PropertyNamesTheorems.EachOfferedKeyOnce | src/api-data.cc:1280-1373 | A key is in the result if and only if some object on the chain has an own property with that key that passes the filters, and then exactly once. |
| PropertyNamesTheorems.KeysReturned | src/api-data.cc:1280-1374 | The returned array holds exactly the offered keys, converted. |
| PropertyNamesTheorems.KeysReturnedOnce | src/api-data.cc:1280-1374 | Without conversion each offered key occurs exactly once. |
| PropertyNamesTheorems.SameArrayEveryTime | src/api-data.cc:1282-1374 | With one value per index on each object, any two calls return the same array, whichever way they sort. |
| PropertyNamesTheorems.ResultIsDistinct | src/api-data.cc:1250-1258 | No key is repeated. |
| PropertyNamesTheorems.ArrayDeterminedIff | src/api-data.cc:1336-1351 | The returned array does not depend on the sorting algorithm if and only if indices are converted to strings or no object brings two new names for one index. |
| PropertyNamesTheorems.ConvertedResultUnique | src/api-data.cc:1342-1345 | With conversion all results are the same array, ties or not. |
| PropertyNamesTheorems.TwoNamesForOneIndex | src/api-data.cc:1336-1351 | An object with a number and a string name for the index 1: the sort decides when numbers are kept, and the array repeats a key when they are converted. |
| PropertyNamesTheorems.DeterminedIff | src/api-data.cc:1336-1341 | Before conversion the result is determined if and only if no object brings two new names for one index. |
| PropertyNamesTheorems.CanonicalNamesNeverTie | src/api-data.cc:1319-1331 | With one value per index on each object there are no ties, for every query. |
| PropertyNamesTheorems.IndicesAscendStrictly | src/api-data.cc:1336-1351 | Without ties the indices of an object's part ascend strictly. |
| PropertyNamesTheorems.ConversionMerges | src/api-data.cc:1342-1345 | Converting to strings makes two keys equal if and only if they denote one index. |
| PropertyNamesTheorems.ConvertedKeysDistinctIff | src/api-data.cc:1342-1351 | A converted array has no repeated key if and only if no two different keys for one index are offered on the chain. |
| PropertyNamesTheorems.OwnKeysComeFirst | src/api-data.cc:1365-1372 | The result for own keys is a prefix of the one with prototypes. |
| Handles.GlobalHandles.Create | src/api/global-handles.cc:67-78 | The cell has one registration more, the others as many as before. |
| Handles.GlobalHandles.Destroy | src/api/global-handles.cc:80-91 | One registration less, or false and no change when there is none; the table stays exact. |
| Handles.Global.FromLocal | include/v8.h:10850-10856 | A handle on a non-empty local registers its cell once. |
| Handles.Global.MoveFrom | include/v8.h:10956-10962 | The cell changes hands; nothing is registered or disposed. |
| Handles.Global.Pass | include/v8.h:805 | The same through a temporary. |
| Handles.Global.Reset | include/v8.h:10880-10884 | Gives up the registration of a non-empty handle, once, and is never refused. |
| Handles.Global.ResetTo | include/v8.h:10889-10894 | Gives up the old registration and takes one on the new cell. |
| Handles.Global.ResetToCopy | include/v8.h:10899-10905 | Takes a further registration on the other handle's cell; resetting a handle to itself leaves it empty. |
| Handles.Global.MoveAssign | include/v8.h:10966-10979 | Disposes the target's cell and moves the source's; self-assignment changes nothing. |
| CellAccounts.CellsUnderRemove | include/v8-util.h:66-72 | The cells in a map are the same multiset whichever key is counted first. |
| CellAccounts.MapCellsSet | include/v8-util.h:51-60 | Setting a key exchanges the old cell for the new one and leaves the others. |
| CellAccounts.MapCellsRemove | include/v8-util.h:66-72 | Removing a key takes out its cell and no other. |
| PersistentContainers.PersistentValueMap.TraitsSet | include/v8-util.h:51-60 | Stores the value and returns the old one, or "not found". |
| PersistentContainers.LookupIsLatest | include/v8-util.h:51-72 | After any changes through the traits, `Get` finds the value stored by the latest change of the key, and "not found" when that was a removal. |
| PersistentContainers.UnchangedSince | include/v8-util.h:51-72 | Changes of other keys leave what `Get` finds alone. |
| PersistentContainers.PersistentValueMap.TraitsRemove | include/v8-util.h:66-72 | Removes the entry and returns its value, or "not found". |
| PersistentContainers.PersistentValueMap.Contains | include/v8-util.h:184-186 | True exactly when a non-null cell is stored under the key. |
| PersistentContainers.PersistentValueMap.ClearAndLeak | include/v8-util.h:293-297 | The raw cell comes out and the handle is empty, with nothing disposed. |
| PersistentContainers.PersistentValueMap.Release | include/v8-util.h:308-316 | The raw cell is in a handle again. |
| PersistentContainers.PersistentValueMap.SetUnique | include/v8-util.h:380-396 | The handle's cell goes in, the replaced one comes out as a handle, and the two balance. |
| PersistentContainers.PersistentValueMap.SetLocal | include/v8-util.h:364-367 | One new registration, held by the map; the temporary handle disposes nothing. |
| PersistentContainers.PersistentValueMap.SetGlobal | include/v8-util.h:372-374 | The argument is moved in. |
| PersistentContainers.PersistentValueMap.SetWithReference | include/v8-util.h:402-406 | Also, the reference shows the cell that the map now holds. |
| PersistentContainers.PersistentValueMap.Remove | include/v8-util.h:200-202 | The cell leaves the map as a handle; nothing is disposed. |
| HandleWorld.World.Clear | include/v8-util.h:208-220 | With callbacks that may put the value back or keep it and use the map, the vector and every handle as they like, clearing again included: terminates when they run out, leaves the map empty, keeps every registration with exactly one owner, gives none up twice, and does to contents and registrations what disposing entry after entry, each with the next callback, does. |
| HandleWorld.World.DisposeCell | include/v8-util.h:216-217 | The next callback runs on the cell with all its actions, and what it leaves of the cell is dropped. |
| HandleWorld.World.RunCallback | include/v8-util.h:216 | The actions of a callback take effect one after the other. |
| HandleWorld.World.RunPlainAction | include/v8-util.h:216 | Inserting, putting the value back, erasing and keeping: the whole new contents, and what is left in the callback's hands. |
| HandleWorld.World.ClearIntoHandles | include/v8-util.h:208-220 | With a callback for every entry that keeps what it gets, the handles gain the map's cells in the order of the iteration, the vector is as before and nothing is disposed. |
| ClearTheorems.ClearedEmpties | include/v8-util.h:212 | Whatever the callbacks do, the map is empty in the end. |
| ClearTheorems.ClearKeeps | include/v8-util.h:208-220 | Callbacks that keep everything turn each cell of the map into a handle, once, and change nothing else. |
| ClearTheorems.ClearedWithoutCallbacks | include/v8-util.h:208-220 | Without callbacks only the map changes, and nothing is registered. |
| ClearTheorems.QuietClear | include/v8-util.h:208-220 | Callbacks that do not touch other handles or the vector leave them alone. |
| HandleWorld.World.Pass | include/v8-util.h:212-219 | One round: everything in the map is swapped out and disposed; without callbacks left the map stays empty. |
| HandleWorld.World.Drain | include/v8-util.h:215-218 | What was swapped out is disposed entry by entry; callbacks only touch the map's own storage. |
| HandleWorld.World.RunAction | include/v8-util.h:216 | Whatever a callback does, the disposed value and everything else keep exactly one owner. |
| HandleWorld.World.DestroyMap | include/v8-util.h:284 | What the owners held and what callbacks created is disposed, each registration once, but for what somebody still holds. |
| PersistentContainers.PersistentValueVector.AppendLocal | include/v8-util.h:582-585 | One new registration, held at the end of the vector. |
| PersistentContainers.PersistentValueVector.AppendGlobal | include/v8-util.h:590-592 | The argument's cell is moved to the end. |
| PersistentContainers.PersistentValueVector.Clear | include/v8-util.h:618-625 | Every cell is disposed once and the vector is empty. |
| Programs.Program.MoveAssign | include/v8.h:10966-10979 | Among the handles of a program the registrations of the others are kept. |
| Programs.Program.Destroy | include/v8.h:794 | A dying handle gives up its own registration only. |
| HandleWorld.World.Do | include/v8-util.h:200-406 | Every operation on handles, map and vector does to their contents what `Stepped` says and keeps every registration with exactly one owner. |
| HandleWorld.World.Run | include/v8-util.h:200-625 | So does every run, and no registration is ever given up that is not there. |
| HandleWorld.World.Finish | include/v8-util.h:284 | When the containers and the handles are gone, nothing is registered and everything ever created has been disposed, once. |

## Left out

- The Escargot engine, `toStdUTF8String` included, and the wrappers around it: other code that only forwards to them.
- Weak maps and weak callbacks, `IsWeak`, `ClearWeak` and `RemoveWeak`: they depend on node states kept by the garbage collector.
- `GlobalValueMap`: with traits that are not weak its `Set` and `SetUnique` are those of `PersistentValueMap`.
- `GlobalHandles::Destroy` without a current isolate, which skips the registry: the model always has one.
- The `GC_HEAP_TRACE_ONLY` build, in which handles do get storage cells of their own.
- The keys of `PersistentValueMap` are integers and the order of iteration over them is arbitrary, which covers any `std::map`; a cell is its address, so the object behind it does not appear.
- What a disposal callback does beyond the map, the vector and the handles, a second map, and callbacks that insert without end, for which `Clear` does not terminate.
- `WriteOneByte`: its two-byte branch reinterprets UTF-16 storage as UTF-8.
- `PRESERVE_ONE_BYTE_NULL` and `HINT_MANY_WRITES_EXPECTED`, which this code does not read.
- The 32-bit value of `kMaxLength`.
- FileReader.FileRead: opening, closing and the choice of string class for compressible strings are not modelled, nor are read errors that deliver nothing, which the code takes for the end of the file.
- The engine's conversion of invalid UTF-8 bytes to a string: the model says which bytes it is given.
- Liveness of the agents beyond whether `broadcast` can return: scheduling, `usleep`, and the worker that reaches its loop before it is registered and ends at once (a step the transition system has).
- What scripts, callbacks and payloads are; a payload is any non-empty string, and a callback may report and leave any number of times.
- Proxies, exceptions during enumeration and cyclic prototype chains: own properties are a given sequence and the chain ends.
- `DefineProperty` and the other attribute mappings: finite case splits.
- The interactive shell, the command line and printing.
