# Verified models of the gateway's algorithmic core

Dafny models of the parts of the ICS gateway, and of the library headers it ships with, in which something can go wrong
that reading one function does not show, and proofs of what they promise. `dafny verify dfyconfig.toml` checks all of it.

- **RESP replies** (`RespParser`, `RespSound`, `RespStops`, `RespStream`, `RespEncoding`, `RespLayout`, `RespCuts`): the
  incremental Redis parser, its routines with their loops proved equal to index-based functions, and those to a
  description of the buffers alone: what is taken, what is waited for, what is refused with which fault. The reading loop
  around it (append, parse, drop what was consumed) equals one call on everything received unless some prefix throws, for
  all inputs; a printer of replies gives the round trip and the exact places where a stream may be cut.
- **Generated marshalling** (`RpcMessage`, `RpcRoundTrip`, `RpcOrder`, `RpcStruct`, `RpcArray`): schemas, messages as
  finite trees, buffers as lists of tagged items, and the meaning of the C code that `event_rpcgen.py` prints.
- **Active methods** (`ActiveCall`, `ActiveSystem`): Poco's two-thread reference counting as interleaved atomic steps,
  for one call and for any number of calls and result handles.
- **Stream buffer** (`StreamBuf`): Poco's bidirectional buffer as a class over two arrays, against a plain stream.
- **Cache** (`CacheHistory`, `CacheContract`, `Cache`, `CacheStrategy`, `CacheStrategies`, `CachePolicies`, `CacheRuns`):
  Poco's event-driven cache over any strategy, run by run, against the plain map of the calls made and, with a strategy
  that meets the contract of `AbstractStrategy`, against the strategy's keys; and collections of LRU, expire and
  access-expire strategies, which meet that contract, against the order of use and the time stamps in the notifications.
- **Checksum** (`Checksum`): the ICMP checksum and the laws of RFC 1071 sections 1 and 2.
- **Templates, hexadecimal text, log files, reports** (`StringSearch`, `Rewriting`, `MakeUp`, `HexText`, `LogRotation`,
  `NumberedArchive`, `BridgeReport`).

`Options` holds the one type they share.

Things that turned out differently from what comments or names suggest; the models follow the code:

- A RESP buffer that ends inside an array header throws, since the size is tested before the pointer; the reading loop
  breaks exactly there (`RespCuts.StreamBreaksInHeader`). A null bulk string at the very end waits for one more byte
  (`RespCuts.RoundTrip`).
- A stream buffer whose refill fails has already moved its putback area, so characters put back afterwards can be wrong
  (`StreamBuf.Buffer.Refill`, `StreamBuf.KeptIsTight`). A device that takes part of a block sees it again, and a put that
  fails leaves no room for another (`StreamBuf.Buffer.FlushBuffer`, `StreamBuf.Buffer.Put`).
- The cache's `get` does not run replacement, whatever the comment on `forceReplace` says; with access expiry it stamps
  a key before asking whether it is valid, and so returns expired keys (`CachePolicies.ExpiredKeysReturn`,
  `CacheRuns.ExpiredYetReturned`).
- When the stamped name is taken, `archive` numbers the older files and does not rename the log file itself
  (`NumberedArchive.Archive.ArchiveLog`).
- With `maxIndex` 0 the rotated log goes to number 4294967295 (`LogRotation.Logger.Rotate`).
- Not every sample reaches a report. One stored between the Bridge's read and its clear is lost
  (`BridgeReport.LateSampleIsLost`), and so is one that is read in a pass without a device id or before another device of
  the same type; `BridgeReport.ReportedExactly` says which samples are reported.
- `StrMakeUp` does not end for a value that holds its own hole once the hole is found
  (`Rewriting.SelfReferenceNeverEnds`). For values whose every `]` closes a hole that is the only case
  (`MakeUp.ProperValueStops`). For others it is not: the value `k]k][[` of the key `k` never finishes the template
  `[k]k]` (`Rewriting.GrowsForEver`). The loop ends on every template for values that cannot be part of a new hole on
  both sides (`Rewriting.TameEnds`). An exact condition for all values is close to that for the termination of string
  rewriting with a single rule, whose decidability is an open question.

What the models take as given: the clock, the device's answers, `realloc`, `strdup` and `malloc`, what an active method
does, and whether the thread starts are parameters or steps of either outcome. How libevent encodes a number, bytes and a
nested buffer is a parameter of which only decoding after encoding is used; a payload carries its three readings. The
checksum is that of a little-endian machine. An iterator of a list or multimap is the number of its node. One clock
reading serves all comparisons of one replacement. A cache's strategy is held as a value with functions for its
callbacks, and the set of keys to remove is emptied in any order.

## Model

| member | source | states |
|---|---|---|
| RespParser.FindClr | ics_gateway/01.CD/3rd.party.raspi/include/Utils.hpp:259-266 | the search loop finds the first CR LF at or after a position, or nothing |
| RespParser.ParseSimpleString | ics_gateway/01.CD/3rd.party.raspi/include/Utils.hpp:267-272 | a line is the text up to the first CR LF; without one the parser waits |
| RespParser.ReadLength | ics_gateway/01.CD/3rd.party.raspi/include/Utils.hpp:273-292 | the digit loop computes the signed length or fails on a non-digit; a length that leaves `int` is an explicit overflow |
| RespParser.ParseBulkString | ics_gateway/01.CD/3rd.party.raspi/include/Utils.hpp:293-305 | null, partial and complete bulk strings, with the bounds test before the null test, as coded |
| RespParser.ParseElement | ics_gateway/01.CD/3rd.party.raspi/include/Utils.hpp:316-339 | the inner switch on the type byte: lines, bulk strings, and nothing else |
| RespParser.ParseArrayReply | ics_gateway/01.CD/3rd.party.raspi/include/Utils.hpp:306-343 | the array loop: a missing or negative size is refused before any element, nested arrays are refused, a short buffer waits |
| RespParser.ParseReplyLoop | ics_gateway/01.CD/3rd.party.raspi/include/Utils.hpp:344-383 | the outer loop makes the callbacks of all complete replies in order and returns where the first incomplete one starts, or throws after them |
| RespStream.ReplyExtend | ics_gateway/01.CD/3rd.party.raspi/include/Utils.hpp:344-383 | on more input the parser makes the same callbacks and then does what a fresh call does on the bytes left over, for all inputs |
| RespStream.ParseReplyIsResumable | ics_gateway/01.CD/3rd.party.raspi/include/Utils.hpp:344-383 | the parser is resumable: the law above as one predicate over all buffers |
| RespStream.ReceiveFirstIsReadWhole | ics_gateway/01.CD/3rd.party.raspi/include/Utils.hpp:344-383 | append, parse, drop the returned bytes: around any resumable parser the reader breaks exactly when some prefix throws, and otherwise equals one call on everything |
| RespStream.StreamIsWhole | ics_gateway/01.CD/3rd.party.raspi/include/Utils.hpp:293-383 | the same for `parseReply` and every way of cutting any byte stream into fragments |
| RespEncoding.DecRead | ics_gateway/01.CD/3rd.party.raspi/include/Utils.hpp:273-292 | reading the decimal digits undoes printing them, for every length that fits an `int` |
| RespEncoding.LengthOf | ics_gateway/01.CD/3rd.party.raspi/include/Utils.hpp:273-292 | a printed length in front of its CR LF is read back, without overflow |
| RespEncoding.BulkParse | ics_gateway/01.CD/3rd.party.raspi/include/Utils.hpp:293-305 | a printed bulk string of any bytes is read back whole, or waited for when cut |
| RespEncoding.NullParse | ics_gateway/01.CD/3rd.party.raspi/include/Utils.hpp:293-305 | a null bulk string is recognised only with one more byte behind it |
| RespEncoding.LineParse | ics_gateway/01.CD/3rd.party.raspi/include/Utils.hpp:267-272 | a printed line without CR LF is read back whole, or waited for when cut |
| RespEncoding.ArrayParse | ics_gateway/01.CD/3rd.party.raspi/include/Utils.hpp:306-343 | a printed flat array is read back whole, waited for when cut in an element, refused when cut in its header |
| RespEncoding.ReplyParse | ics_gateway/01.CD/3rd.party.raspi/include/Utils.hpp:306-343 | every well-formed reply at every place in a buffer: reported, waited for or refused, by how many of its bytes are there |
| RespSound.LengthIsSpelled | ics_gateway/01.CD/3rd.party.raspi/include/Utils.hpp:273-292 | a length is read exactly from an optional minus sign and digits up to the first CR LF whose value fits an `int`, and is that value |
| RespSound.BulkIsSpelled | ics_gateway/01.CD/3rd.party.raspi/include/Utils.hpp:293-305 | exactly what is taken as a bulk string, for all buffers |
| RespSound.ArrayIsSpelled | ics_gateway/01.CD/3rd.party.raspi/include/Utils.hpp:306-343 | exactly what is taken as an array: a length and that many lines or bulk strings, none of them an array |
| RespSound.ReplyIsSpelled | ics_gateway/01.CD/3rd.party.raspi/include/Utils.hpp:344-383 | a reply is taken if and only if it is spelled at that place, by a definition that does not mention the parser |
| RespSound.ReportsAreSpelled | ics_gateway/01.CD/3rd.party.raspi/include/Utils.hpp:344-383 | on any buffer, throw or not, the callbacks are the replies spelled at its start up to the returned length |
| RespStops.LengthStops | ics_gateway/01.CD/3rd.party.raspi/include/Utils.hpp:273-292 | when a length is waited for, and when it is refused, as a non-digit or as too large, whichever comes first |
| RespStops.ItemStops | ics_gateway/01.CD/3rd.party.raspi/include/Utils.hpp:316-339 | when a line or bulk string is waited for, and when it is refused; an unknown type byte and a nested array are a type fault |
| RespStops.ArrayStops | ics_gateway/01.CD/3rd.party.raspi/include/Utils.hpp:306-343 | when an array is waited for, and when it is refused: for its length, a missing or negative size, or an element |
| RespStops.ReplyStops | ics_gateway/01.CD/3rd.party.raspi/include/Utils.hpp:344-383 | when one reply is waited for, and when it is refused with which fault, for all buffers |
| RespStops.ParseReplyExactly | ics_gateway/01.CD/3rd.party.raspi/include/Utils.hpp:344-383 | all that the parser does on every buffer: it returns if and only if the replies at the front are all or the next one has to wait, and throws a fault if and only if the next one is refused with it |
| RespLayout.ReportedAreComplete | ics_gateway/01.CD/3rd.party.raspi/include/Utils.hpp:344-383 | the replies counted as reported are exactly those before the first one that lacks bytes |
| RespLayout.InHeaderIsNext | ics_gateway/01.CD/3rd.party.raspi/include/Utils.hpp:306-314 | only the first unreported reply can be cut in its header |
| RespCuts.CutStream | ics_gateway/01.CD/3rd.party.raspi/include/Utils.hpp:293-383 | a stream of replies cut after any number of bytes: the parser throws exactly when the cut is inside an array header, and otherwise reports all replies it can and returns a reply boundary |
| RespCuts.RoundTrip | ics_gateway/01.CD/3rd.party.raspi/include/Utils.hpp:259-383 | parsing the encoding of any list of replies calls back exactly that list and consumes every byte if and only if the stream does not end in a null bulk string |
| RespCuts.LineReported | ics_gateway/01.CD/3rd.party.raspi/include/Utils.hpp:351-361 | a simple string, error or integer reply of any text without CR LF is reported with its type byte |
| RespCuts.LineInArrayReported | ics_gateway/01.CD/3rd.party.raspi/include/Utils.hpp:319-327 | and as an element of an array |
| RespCuts.StreamBreaksInHeader | ics_gateway/01.CD/3rd.party.raspi/include/Utils.hpp:306-314 | the reading loop on any fragments of a printed stream breaks if and only if some fragment ends inside an array header |
| RespCuts.StreamDeliversAll | ics_gateway/01.CD/3rd.party.raspi/include/Utils.hpp:293-383 | otherwise it ends with every reply reported in order and nothing pending |
| RpcMessage.UnmarshalLoop | ics_gateway/01.CD/3rd.party.raspi/bin/event_rpcgen.py:248-287 | the generated loop over the buffer, with its early failures and the final completeness test, computes `Unmarshal` |
| RpcMessage.UpToNul | ics_gateway/01.CD/3rd.party.raspi/bin/event_rpcgen.py:726-741 | a string read from a payload is the part before the first NUL, all of it when there is none |
| RpcMessage.CompleteExactly | ics_gateway/01.CD/3rd.party.raspi/bin/event_rpcgen.py:289-308 | a message is complete if and only if no required field is unset, in it or in a message inside it |
| RpcRoundTrip.RunIsGather | ics_gateway/01.CD/3rd.party.raspi/bin/event_rpcgen.py:248-287 | the loop over all items is, for each entry, a loop over the items of its tag alone, and an unknown tag is an error |
| RpcRoundTrip.OrderFree | ics_gateway/01.CD/3rd.party.raspi/bin/event_rpcgen.py:248-308 | two buffers whose items agree tag by tag are both refused or give the same message |
| RpcRoundTrip.DecodeEncode | ics_gateway/01.CD/3rd.party.raspi/bin/event_rpcgen.py:632-649 | a value of any type, nested messages included, comes back from its payload |
| RpcRoundTrip.NumbersFit | ics_gateway/01.CD/3rd.party.raspi/bin/event_rpcgen.py:604-615 | a 32-bit field takes a number if and only if it is below 2^32, a 64-bit field if and only if it is below 2^64 |
| RpcRoundTrip.PayloadsFit | ics_gateway/01.CD/3rd.party.raspi/bin/event_rpcgen.py:632-649 | what is not a number, not a buffer or not of the fixed length is refused, and no other bytes are |
| RpcRoundTrip.WalkArray | ics_gateway/01.CD/3rd.party.raspi/bin/event_rpcgen.py:1207-1246 | the elements of an array come back in order |
| RpcRoundTrip.GatherMarshal | ics_gateway/01.CD/3rd.party.raspi/bin/event_rpcgen.py:227-246 | each entry finds its own items wherever those stand in the marshalled buffer |
| RpcRoundTrip.UnmarshalMarshal | ics_gateway/01.CD/3rd.party.raspi/bin/event_rpcgen.py:227-333 | for every schema with unique tags, recursive ones included, and every complete message, unmarshalling the marshalled message gives it back, absent optionals still unset |
| RpcRoundTrip.AcceptedFits | ics_gateway/01.CD/3rd.party.raspi/bin/event_rpcgen.py:248-308 | whatever is accepted is a well-typed message, complete at every depth |
| RpcRoundTrip.AcceptedSurvives | ics_gateway/01.CD/3rd.party.raspi/bin/event_rpcgen.py:248-346 | and is given back unchanged by marshal and unmarshal, whatever buffer it came from |
| RpcOrder.FieldTakesOne | ics_gateway/01.CD/3rd.party.raspi/bin/event_rpcgen.py:262-281 | a field that is not an array is decided by the items of its tag: none leaves it unset, one sets it, two are an error |
| RpcOrder.ArrayTakesAll | ics_gateway/01.CD/3rd.party.raspi/bin/event_rpcgen.py:1207-1229 | an array takes all items of its tag in order |
| RpcOrder.EntryAcceptsExactly | ics_gateway/01.CD/3rd.party.raspi/bin/event_rpcgen.py:262-308 | what one entry is content with: one good item if required, at most one if optional, only good ones if an array |
| RpcOrder.UnmarshalAccepts | ics_gateway/01.CD/3rd.party.raspi/bin/event_rpcgen.py:248-308 | a buffer is accepted if and only if every tag is known and every entry is content with the items of its tag |
| RpcOrder.DecodeAlike | ics_gateway/01.CD/3rd.party.raspi/bin/event_rpcgen.py:893-907 | a nested message is the same whichever of two alike buffers it is read from |
| RpcOrder.DeepOrderFree | ics_gateway/01.CD/3rd.party.raspi/bin/event_rpcgen.py:248-333 | two buffers whose items, taken tag by tag and so on inside fields of struct type alone, are the same are both refused or give the same message |
| RpcOrder.AlikeByTag | ics_gateway/01.CD/3rd.party.raspi/bin/event_rpcgen.py:248-287 | moving items past items of other tags gives such a buffer |
| RpcStruct.StructDecl.Add | ics_gateway/01.CD/3rd.party.raspi/bin/event_rpcgen.py:398-410 | an entry is refused exactly for an array of bytes, an optional array, or a tag already taken; otherwise it is added last with its tag and type, as array, optional or required as declared; tags stay unique |
| RpcStruct.SnocUnique | ics_gateway/01.CD/3rd.party.raspi/bin/event_rpcgen.py:59-67 | adding an entry with a new tag keeps the tags of a struct unique |
| RpcStruct.SchemaOf | ics_gateway/01.CD/3rd.party.raspi/bin/event_rpcgen.py:1415-1436 | structs built this way form a schema with unique tags; each struct that is the last of its name has the entries that were accepted |
| RpcStruct.MissingFieldRefused | ics_gateway/01.CD/3rd.party.raspi/bin/event_rpcgen.py:289-308 | a buffer that lacks a field that is no array, and is otherwise as it should be, is refused if and only if the field was declared without `optional` |
| RpcStruct.RequiredFieldNeeded | ics_gateway/01.CD/3rd.party.raspi/bin/event_rpcgen.py:289-308 | without a field that is neither optional nor an array any buffer is refused |
| RpcArray.ArrayField.constructor | ics_gateway/01.CD/3rd.party.raspi/bin/event_rpcgen.py:1279-1283 | a new array is empty, unset and has no memory |
| RpcArray.ArrayField.ExpandToHoldMore | ics_gateway/01.CD/3rd.party.raspi/bin/event_rpcgen.py:1143-1156 | the memory doubles, from nothing to one, and keeps its contents; a failure changes nothing |
| RpcArray.ArrayField.Add | ics_gateway/01.CD/3rd.party.raspi/bin/event_rpcgen.py:1158-1182 | an element goes behind the others or, on either failure, nothing changes; length, capacity and the set flag stay within their bounds |
| RpcArray.ArrayField.UnmarshalItem | ics_gateway/01.CD/3rd.party.raspi/bin/event_rpcgen.py:1207-1229 | the same for the array's case of unmarshal |
| RpcArray.ArrayField.Get | ics_gateway/01.CD/3rd.party.raspi/bin/event_rpcgen.py:1104-1115 | exactly the offsets below the length are answered |
| RpcArray.ArrayField.Assign | ics_gateway/01.CD/3rd.party.raspi/bin/event_rpcgen.py:1117-1137 | exactly the offsets below the length are overwritten, with the copy or, when that cannot be made, with what clearing leaves |
| RpcArray.ArrayField.Clear | ics_gateway/01.CD/3rd.party.raspi/bin/event_rpcgen.py:1248-1277 | the array is empty and unset; memory of an array that was never set stays |
| ActiveCall.StepKeepsOk | ics_gateway/01.CD/3rd.party.raspi/include/Poco/ActiveRunnable.h:60-80 | every step of the invoker and of the worker keeps both counts equal to the number of owners and touches no dead object |
| ActiveCall.CopyKeepsOk | ics_gateway/01.CD/3rd.party.raspi/include/Poco/ActiveResult.h:253-258 | copying a handle keeps the invariant |
| ActiveCall.DestroyKeepsOk | ics_gateway/01.CD/3rd.party.raspi/include/Poco/ActiveResult.h:260-264 | destroying a handle keeps the invariant |
| ActiveCall.InUseIsLive | ics_gateway/01.CD/3rd.party.raspi/include/Poco/ActiveStarter.h:39-43 | the runnable's count is positive exactly while a thread may still use it, though it is raised only after the launch |
| ActiveCall.StepGoesForward | ics_gateway/01.CD/3rd.party.raspi/include/Poco/ActiveResult.h:43-129 | no object comes back to life and a signalled result never changes |
| ActiveCall.StepsRunOut | ics_gateway/01.CD/3rd.party.raspi/include/Poco/ActiveMethod.h:89-96 | every schedule of a call is finite |
| ActiveCall.NeverStuck | ics_gateway/01.CD/3rd.party.raspi/include/Poco/ActiveMethod.h:89-96 | a call that is not finished has a next step |
| ActiveCall.NothingLeaks | ics_gateway/01.CD/3rd.party.raspi/include/Poco/AutoPtr.h:74-93 | a finished call has deleted its runnable, and its holder exactly when no handle is left |
| ActiveCall.FaultExactly | ics_gateway/01.CD/3rd.party.raspi/include/Poco/AutoPtr.h:74-93 | a step is a fault exactly when it touches an object that is not alive, and no fault is forgotten |
| ActiveCall.ThreadsAreFree | ics_gateway/01.CD/3rd.party.raspi/include/Poco/ActiveStarter.h:39-43 | neither thread waits for the other, so every interleaving of their steps is a run |
| ActiveCall.WorkerRuns | ics_gateway/01.CD/3rd.party.raspi/include/Poco/ActiveRunnable.h:60-80 | the worker of any call gets to its end, and the holder then has the value returned or the exception thrown, and is signalled |
| ActiveCall.InvokerReturns | ics_gateway/01.CD/3rd.party.raspi/include/Poco/ActiveMethod.h:89-96 | the invoker of a launched call gets to its end, whether its own handle becomes the caller's or a copy does |
| ActiveCall.LaunchMayFail | ics_gateway/01.CD/3rd.party.raspi/include/Poco/ActiveStarter.h:39-43 | a launch may fail, and unwinds |
| ActiveSystem.NextKeepsInv | ics_gateway/01.CD/3rd.party.raspi/include/Poco/ActiveMethod.h:89-96 | any number of calls and handles, any event: the invariant is kept |
| ActiveSystem.EveryRunIsSafe | ics_gateway/01.CD/3rd.party.raspi/include/Poco/ActiveRunnable.h:60-80 | in every interleaving nothing dead is touched, the runnable lives while it is in use, and the holder outlives every handle |
| ActiveSystem.DeletedOnce | ics_gateway/01.CD/3rd.party.raspi/include/Poco/RefCountedObject.h:70-88 | over a whole run a count reaches zero at most once |
| ActiveSystem.ResultIsFinal | ics_gateway/01.CD/3rd.party.raspi/include/Poco/ActiveResult.h:43-129 | a released waiter finds exactly one of data and exception, and finds the same later, whatever handles were copied, assigned or destroyed meanwhile |
| ActiveSystem.AssignRedirects | ics_gateway/01.CD/3rd.party.raspi/include/Poco/ActiveResult.h:266-278 | assignment redirects one handle and changes no other |
| ActiveSystem.HandlesAreFree | ics_gateway/01.CD/3rd.party.raspi/include/Poco/ActiveResult.h:253-278 | whoever has a handle can copy, swap and destroy it at any time, and what that does to the handles |
| ActiveSystem.InvokeStarts | ics_gateway/01.CD/3rd.party.raspi/include/Poco/ActiveMethod.h:89-96 | a call can be invoked at any time and starts with no object |
| ActiveSystem.NothingRemains | ics_gateway/01.CD/3rd.party.raspi/include/Poco/AutoPtr.h:74-93 | when all calls are at rest and all handles gone, every object is gone |
| StreamBuf.Buffer.constructor | ics_gateway/01.CD/3rd.party.raspi/include/Poco/BufferedBidirectionalStreamBuf.h:59-66 | empty get and put areas in two separate buffers |
| StreamBuf.Buffer.SavePutback | ics_gateway/01.CD/3rd.party.raspi/include/Poco/BufferedBidirectionalStreamBuf.h:95-98 | up to four delivered characters are copied in front of the next block |
| StreamBuf.Buffer.Refill | ics_gateway/01.CD/3rd.party.raspi/include/Poco/BufferedBidirectionalStreamBuf.h:95-103 | delivered characters, window and rest of the device stay the stream; putback stays exact if and only if the refill succeeds, the window was at its start or nothing lies before it |
| StreamBuf.Buffer.Underflow | ics_gateway/01.CD/3rd.party.raspi/include/Poco/BufferedBidirectionalStreamBuf.h:88-107 | the character returned is the next one of the stream, whatever block sizes the device answers with; after a refill the last min(4, available) delivered characters can be put back |
| StreamBuf.Buffer.Get | ics_gateway/01.CD/3rd.party.raspi/include/Poco/BufferedBidirectionalStreamBuf.h:88-107 | reading delivers the stream character by character |
| StreamBuf.Buffer.Unget | ics_gateway/01.CD/3rd.party.raspi/include/Poco/BufferedBidirectionalStreamBuf.h:95-103 | putting back takes the last delivered character back while it is sure |
| StreamBuf.Overwritten | ics_gateway/01.CD/3rd.party.raspi/include/Poco/BufferedBidirectionalStreamBuf.h:95-101 | after a failed refill the characters above the putback area are still right |
| StreamBuf.KeptIsTight | ics_gateway/01.CD/3rd.party.raspi/include/Poco/BufferedBidirectionalStreamBuf.h:95-101 | and no more than those: for every larger number there is a buffer in which the next character put back is wrong |
| StreamBuf.Buffer.FlushBuffer | ics_gateway/01.CD/3rd.party.raspi/include/Poco/BufferedBidirectionalStreamBuf.h:146-155 | a device that takes all empties the put area; output and pending characters stay what was written if and only if the device takes all or nothing |
| StreamBuf.Buffer.Overflow | ics_gateway/01.CD/3rd.party.raspi/include/Poco/BufferedBidirectionalStreamBuf.h:74-86 | the character is stored in the reserved slot and the area flushed; the answer is the character or end of file, also after a successful flush without a character; without output mode nothing happens |
| StreamBuf.Buffer.Put | ics_gateway/01.CD/3rd.party.raspi/include/Poco/BufferedBidirectionalStreamBuf.h:74-86 | the reserved slot is free again exactly when the put succeeds; output and pending characters are what was written, unless the device took part of a block |
| StreamBuf.Buffer.Sync | ics_gateway/01.CD/3rd.party.raspi/include/Poco/BufferedBidirectionalStreamBuf.h:109-116 | after a successful sync nothing is pending and the device has everything written |
| StreamBuf.Copy | ics_gateway/01.CD/3rd.party.raspi/include/Poco/BufferedBidirectionalStreamBuf.h:74-116 | a stream copied through two buffers arrives unchanged: the output is exactly what the blocks bring, all of it if and only if they are enough, and as many non-empty blocks as characters are |
| CacheHistory.ReplayIsLatestWrite | ics_gateway/01.CD/3rd.party.raspi/include/Poco/AbstractCache.h:209-353 | a key has a value if and only if that was its latest add or update and no remove or clear followed |
| CacheHistory.BalanceIsSize | ics_gateway/01.CD/3rd.party.raspi/include/Poco/AbstractCache.h:277-286 | Add minus Remove notifications since the last Clear are the number of keys |
| CacheHistory.StampedKeys | ics_gateway/01.CD/3rd.party.raspi/include/Poco/ExpireStrategy.h:62-95 | the keys with a time stamp are the keys of the cache |
| CacheHistory.RecencyKeys | ics_gateway/01.CD/3rd.party.raspi/include/Poco/LRUStrategy.h:59-96 | the order of use holds each key of the cache once |
| CacheStrategy.LinkedIsBijective | ics_gateway/01.CD/3rd.party.raspi/include/Poco/ExpireStrategy.h:62-84 | key dictionary and time index (or list) are in bijection |
| CacheStrategy.ErasedSorted | ics_gateway/01.CD/3rd.party.raspi/include/Poco/ExpireStrategy.h:76-84 | erasing through an iterator keeps the time index sorted |
| CacheStrategy.InsertedSorted | ics_gateway/01.CD/3rd.party.raspi/include/Poco/ExpireStrategy.h:62-74 | inserting keeps the time index sorted |
| CacheStrategy.InsertedPlace | ics_gateway/01.CD/3rd.party.raspi/include/Poco/ExpireStrategy.h:62-74 | a node goes behind those with a stamp that is not later and in front of the others |
| CacheStrategies.AddKeeps | ics_gateway/01.CD/3rd.party.raspi/include/Poco/LRUStrategy.h:59-67 | a new key goes to the front of the list, or gets its time stamp, and the bijection is kept |
| CacheStrategies.AddsAgain | ics_gateway/01.CD/3rd.party.raspi/include/Poco/ExpireStrategy.h:62-74 | a key added though it is there only gets a new stamp: the new node goes in before the old one goes out |
| CacheStrategies.MakeSucceeds | ics_gateway/01.CD/3rd.party.raspi/include/Poco/LRUStrategy.h:49-53 | an LRU strategy needs a size of at least 1, an expiring one a lifetime of at least 25000 microseconds |
| CacheStrategies.RemoveKeeps | ics_gateway/01.CD/3rd.party.raspi/include/Poco/LRUStrategy.h:69-78 | exactly the one key goes, from both structures |
| CacheStrategies.GetKeeps | ics_gateway/01.CD/3rd.party.raspi/include/Poco/AccessExpireStrategy.h:54-66 | reading re-indexes the key with the new time, or moves it to the front, and the bijection is kept |
| CacheStrategies.OnKeepsOk | ics_gateway/01.CD/3rd.party.raspi/include/Poco/AbstractStrategy.h:45-72 | every notification the cache may send keeps every strategy equal to what its notifications say |
| CacheStrategies.SameKeys | ics_gateway/01.CD/3rd.party.raspi/include/Poco/AbstractStrategy.h:45-72 | the strategy's keys are the cache's keys |
| CacheStrategies.ValidIsFresh | ics_gateway/01.CD/3rd.party.raspi/include/Poco/ExpireStrategy.h:97-109 | validity is membership and, for expiring strategies, an age below the limit |
| CacheStrategies.OnReplaceExpire | ics_gateway/01.CD/3rd.party.raspi/include/Poco/ExpireStrategy.h:111-122 | the loop over the time index collects all expired keys although it stops at the first fresh one |
| CacheStrategies.OnReplaceLru | ics_gateway/01.CD/3rd.party.raspi/include/Poco/LRUStrategy.h:106-130 | the loop from the back of the list collects the keys past the limit |
| CacheStrategies.ReplaceIsDoomed | ics_gateway/01.CD/3rd.party.raspi/include/Poco/AbstractStrategy.h:69-72 | what a strategy wants gone is determined by the notifications alone |
| CacheStrategies.StrategyMeetsContract | ics_gateway/01.CD/3rd.party.raspi/include/Poco/AbstractStrategy.h:45-72 | LRU, expire and access expire meet the contract of a strategy |
| CacheContract.KeysAgree | ics_gateway/01.CD/3rd.party.raspi/include/Poco/AbstractStrategy.h:45-72 | every strategy that meets the contract holds exactly the keys of the plain map, after every history a cache can make |
| CacheContract.CollectionMeetsContract | ics_gateway/01.CD/3rd.party.raspi/include/Poco/StrategyCollection.h:63-126 | a collection of strategies that meet the contract meets it |
| CacheContract.NotifyEach | ics_gateway/01.CD/3rd.party.raspi/include/Poco/StrategyCollection.h:63-105 | the loops pass a notification to every strategy |
| CacheContract.IsValidForEach | ics_gateway/01.CD/3rd.party.raspi/include/Poco/StrategyCollection.h:107-115 | the loop asks up to the first no, and a key is valid if and only if it is for all |
| CacheContract.ReplaceForEach | ics_gateway/01.CD/3rd.party.raspi/include/Poco/StrategyCollection.h:117-125 | the loop collects the union of what the strategies want gone |
| Cache.Cache.constructor | ics_gateway/01.CD/3rd.party.raspi/include/Poco/AbstractCache.h:55-63 | an empty cache over any strategy |
| Cache.Cache.Notify | ics_gateway/01.CD/3rd.party.raspi/include/Poco/AbstractCache.h:185-195 | the strategy is told and, if it meets its contract, its keys are those of the notifications |
| Cache.Cache.DoRemove | ics_gateway/01.CD/3rd.party.raspi/include/Poco/AbstractCache.h:277-286 | the entry goes, with one notification if it was there |
| Cache.Cache.DoReplace | ics_gateway/01.CD/3rd.party.raspi/include/Poco/AbstractCache.h:340-353 | the keys the strategy names are removed, in any order, and names the cache does not know are ignored |
| Cache.Cache.ForceReplace | ics_gateway/01.CD/3rd.party.raspi/include/Poco/AbstractCache.h:156-165 | exactly the unwanted keys are gone |
| Cache.Cache.Add | ics_gateway/01.CD/3rd.party.raspi/include/Poco/AbstractCache.h:209-221 | the cache is the old map with the entry, less what the strategy then wants gone; the notifications are the old ones, a Remove of an old entry, the Add, and Removes of unwanted keys |
| Cache.Cache.Update | ics_gateway/01.CD/3rd.party.raspi/include/Poco/AbstractCache.h:237-255 | the same with one Update notification, and no Remove before it, when the key is present |
| Cache.Cache.Remove | ics_gateway/01.CD/3rd.party.raspi/include/Poco/AbstractCache.h:116-123 | the entry is gone and nothing else |
| Cache.Cache.Has | ics_gateway/01.CD/3rd.party.raspi/include/Poco/AbstractCache.h:288-303 | true if and only if the key is present and the strategy finds it valid |
| Cache.Cache.Get | ics_gateway/01.CD/3rd.party.raspi/include/Poco/AbstractCache.h:305-331 | nothing, or the value of the latest add or update not followed by remove or clear; exact condition, and the notifications of every outcome |
| Cache.Cache.Clear | ics_gateway/01.CD/3rd.party.raspi/include/Poco/AbstractCache.h:333-338 | cache and strategy are empty |
| Cache.Cache.Size | ics_gateway/01.CD/3rd.party.raspi/include/Poco/AbstractCache.h:148-154 | the number of entries after replacement, which is Adds minus Removes since the last Clear |
| CacheRuns.Perform | ics_gateway/01.CD/3rd.party.raspi/include/Poco/AbstractCache.h:209-353 | a call leads from its notifications to the next and answers as `Goes` says, on a cache over any strategy |
| CacheRuns.GoesExactly | ics_gateway/01.CD/3rd.party.raspi/include/Poco/AbstractCache.h:209-353 | a call does to the cache what it does to a plain map, less exactly what the strategy takes away |
| CacheRuns.RunIsWithinPlain | ics_gateway/01.CD/3rd.party.raspi/include/Poco/AbstractCache.h:209-353 | after every run the cache is part of the plain map of the calls |
| CacheRuns.RunMissesLost | ics_gateway/01.CD/3rd.party.raspi/include/Poco/AbstractCache.h:209-353 | a key is in the cache if and only if it is in the plain map of the calls and the strategy has not taken it away since it was written |
| CacheRuns.AnswersArePlain | ics_gateway/01.CD/3rd.party.raspi/include/Poco/AbstractCache.h:305-331 | the answer of a get is the plain map's value at that point of the run, and nothing exactly when the key is not in the plain map, lost, or found invalid by this get |
| CacheRuns.RunGoesOn | ics_gateway/01.CD/3rd.party.raspi/include/Poco/AbstractCache.h:277-353 | the notifications of a run go on from those before it |
| CacheRuns.RunBalances | ics_gateway/01.CD/3rd.party.raspi/include/Poco/AbstractCache.h:277-286 | among the notifications of a run, Adds minus Removes since the last Clear are the size |
| CacheRuns.Run | ics_gateway/01.CD/3rd.party.raspi/include/Poco/AbstractCache.h:209-353 | every sequence of calls on a cache over any strategy is such a run: contents and answers against the plain map of the calls, Adds minus Removes, and the strategy's keys if it meets its contract |
| CacheRuns.RunStaysWithin | ics_gateway/01.CD/3rd.party.raspi/include/Poco/LRUStrategy.h:106-130 | in every run over a collection of the three strategies each reflects the notifications, and no LRU limit is exceeded |
| CacheRuns.RunPolicies | ics_gateway/01.CD/3rd.party.raspi/include/Poco/LRUStrategy.h:106-130 | every sequence of calls on a new cache over such a collection is such a run, with all of the above |
| CacheRuns.ExpiredYetReturned | ics_gateway/01.CD/3rd.party.raspi/include/Poco/AbstractCache.h:288-331 | a key added at 0 under access expiry: at the limit `has` denies it and `get` returns it |
| CachePolicies.AfterInStep | ics_gateway/01.CD/3rd.party.raspi/include/Poco/StrategyCollection.h:63-126 | along any history each strategy of a collection reflects the notifications |
| CachePolicies.PoliciesDecide | ics_gateway/01.CD/3rd.party.raspi/include/Poco/StrategyCollection.h:107-126 | after any history, which keys a collection finds valid and which it wants gone |
| CachePolicies.AfterReplacement | ics_gateway/01.CD/3rd.party.raspi/include/Poco/AbstractCache.h:340-353 | after a replacement no LRU limit is exceeded and every key left is valid |
| CachePolicies.MostRecentStay | ics_gateway/01.CD/3rd.party.raspi/include/Poco/LRUStrategy.h:106-130 | alone, an LRU strategy keeps exactly the most recently used keys, in order |
| CachePolicies.DroppedToLimit | ics_gateway/01.CD/3rd.party.raspi/include/Poco/LRUStrategy.h:106-130 | once an LRU strategy had its way, whatever other strategies removed, there are no more keys than its limit |
| CachePolicies.FreshAfterGet | ics_gateway/01.CD/3rd.party.raspi/include/Poco/AccessExpireStrategy.h:54-66 | what a strategy says of a key just read |
| CachePolicies.ExpiredKeysReturn | ics_gateway/01.CD/3rd.party.raspi/include/Poco/AbstractCache.h:305-331 | with access expiry alone `get` returns every key present, also the expired ones that `has` denies |
| Checksum.ComputeChecksum | ics_gateway/01.CD/apps/Common/ComSysNetwork.h:126-149 | the complement of the one's-complement sum, or an explicit 32-bit overflow |
| Checksum.ChecksumExactly | ics_gateway/01.CD/apps/Common/ComSysNetwork.h:126-149 | the checksum is the one word that brings the sum of the bytes, those at odd places times 256, to a multiple of 65535, and 65535 only for a sum of 0 |
| Checksum.FoldIsResidue | ics_gateway/01.CD/apps/Common/ComSysNetwork.h:145-146 | two folds lose no carry of any sum that fits |
| Checksum.ShortBuffersFit | ics_gateway/01.CD/apps/Common/ComSysNetwork.h:133-143 | no overflow up to 32768 words and an odd byte |
| Checksum.LongBuffersOverflow | ics_gateway/01.CD/apps/Common/ComSysNetwork.h:133-143 | and every longer length has a buffer that overflows |
| Checksum.FilledInBufferChecks | ics_gateway/01.CD/apps/Common/ComSysNetwork.cpp:486-492 | writing the checksum into a zeroed word makes the checksum of the whole 0 |
| Checksum.Seal | ics_gateway/01.CD/apps/Common/ComSysNetwork.cpp:486-492 | the sender's steps give a packet that checks and is otherwise unchanged |
| Checksum.ZeroChecksum | ics_gateway/01.CD/apps/Common/ComSysNetwork.h:126-149 | the checksum is 0 exactly when the sum is a positive multiple of 65535 |
| Checksum.OneWordChanged | ics_gateway/01.CD/apps/Common/ComSysNetwork.h:126-149 | which single-word changes go unnoticed: none, or 0 for 0xFFFF and back |
| Checksum.OrderFree | ics_gateway/01.CD/apps/Common/ComSysNetwork.h:126-149 | word order does not matter (RFC 1071 section 2 (A)) |
| Checksum.ByteOrderFree | ics_gateway/01.CD/apps/Common/ComSysNetwork.h:126-149 | byte-swapping every word byte-swaps the checksum (RFC 1071 section 2 (B)) |
| StringSearch.FindFrom | ics_gateway/01.CD/apps/Common/ComUtil.cpp:226-226 | the first occurrence at or after a position, or none |
| MakeUp.StrMakeUp | ics_gateway/01.CD/apps/Common/ComUtil.cpp:210-233 | terminates for values that do not hold their own hole and do not both begin with the end and end with the beginning of one; computes key after key and leaves no hole of the last key |
| MakeUp.MakeUpKey | ics_gateway/01.CD/apps/Common/ComUtil.cpp:225-229 | the inner loop, which ends because two numbers fall |
| MakeUp.OneKindOfBracketEnds | ics_gateway/01.CD/apps/Common/ComUtil.cpp:225-229 | values without `]`, or without `[`, are such values |
| MakeUp.OtherHoleEnds | ics_gateway/01.CD/apps/Common/ComUtil.cpp:225-229 | and so is the hole of another key |
| Rewriting.TurnFalls | ics_gateway/01.CD/apps/Common/ComUtil.cpp:226-229 | each replacement lowers a pair of numbers: the text behind the next find, or the number of finds behind it and its place |
| Rewriting.TameEnds | ics_gateway/01.CD/apps/Common/ComUtil.cpp:226-229 | with such a value the replacements come to an end on every string |
| Rewriting.SelfReferenceNeverEnds | ics_gateway/01.CD/apps/Common/ComUtil.cpp:226-229 | with a value that holds its own hole, the string holds the hole after any number of replacements, once it does |
| MakeUp.ProperValueStops | ics_gateway/01.CD/apps/Common/ComUtil.cpp:225-229 | for values whose every `]` closes a hole the loop comes to an end on a string if and only if not both hold the hole of the key |
| Rewriting.GrowsForEver | ics_gateway/01.CD/apps/Common/ComUtil.cpp:226-229 | with the value `k]k][[` for the key `k`, which does not hold its hole, the template `[k]k]` is never finished |
| MakeUp.FindIsFirstHole | ics_gateway/01.CD/apps/Common/ComUtil.cpp:225-226 | in a template whose every `]` closes a hole the search finds exactly the first hole of its key |
| MakeUp.MakeUpKeyFills | ics_gateway/01.CD/apps/Common/ComUtil.cpp:225-229 | the loop for one key fills all its holes and changes nothing else |
| MakeUp.MakeUpIsSubstitution | ics_gateway/01.CD/apps/Common/ComUtil.cpp:210-233 | key after key, in any order, is all keys at once, for values free of `]` |
| HexText.ConvertToHex | ics_gateway/01.CD/3rd.party.raspi/include/Utils.hpp:123-145 | at every seventh place `0x` and the four digits of the next word in capitals, blanks between, and nothing else; `convertASCII` reads the text back as the high and low bytes in order |
| HexText.ConvertAscii | ics_gateway/01.CD/3rd.party.raspi/include/Utils.hpp:75-100 | the erasing loop terminates by length; then two characters at a time, with `stoul`'s exceptions |
| HexText.TwoDigits | ics_gateway/01.CD/3rd.party.raspi/include/Utils.hpp:91-99 | two hexadecimal digits, capital or small, are one byte |
| HexText.TwoCharacters | ics_gateway/01.CD/3rd.party.raspi/include/Utils.hpp:91-99 | what `stoul` makes of two characters that are not two digits: one digit, a digit behind a blank or a sign, or an exception |
| HexText.PairsExactly | ics_gateway/01.CD/3rd.party.raspi/include/Utils.hpp:91-99 | every two characters are one byte in order, the last one alone if need be, or one of them is an exception |
| HexText.EraseTail | ics_gateway/01.CD/3rd.party.raspi/include/Utils.hpp:82-90 | erasing removes all separators and never makes a new one |
| HexText.HexRoundTrip | ics_gateway/01.CD/3rd.party.raspi/include/Utils.hpp:75-145 | for every array of words, reading the printed text gives its bytes |
| LogRotation.Logger.FirstFree | ics_gateway/01.CD/apps/Common/ComUtil.h:528-535 | the probing loop finds the first free number |
| LogRotation.Logger.ShiftDown | ics_gateway/01.CD/apps/Common/ComUtil.h:540-542 | each numbered file takes the place of the one below, and only the oldest is lost |
| LogRotation.Logger.Rotate | ics_gateway/01.CD/apps/Common/ComUtil.h:524-546 | the numbered files are the last min(n, maxIndex) rotated logs, oldest at 0; with maxIndex 0 the last log is at number 4294967295 |
| LogRotation.Logger.CheckMaxSize | ics_gateway/01.CD/apps/Common/ComUtil.h:505-549 | rotates exactly when the file exists and its size, read into 32 bits, reaches the limit; all text written is the rotated logs followed by the log file |
| LogRotation.NewestGrows | ics_gateway/01.CD/apps/Common/ComUtil.h:537-538 | a free number is used next |
| LogRotation.NewestShifts | ics_gateway/01.CD/apps/Common/ComUtil.h:540-545 | with no free number the window of kept logs moves by one |
| NumberedArchive.Archive.ArchiveByNumber | ics_gateway/01.CD/3rd.party.raspi/include/Poco/ArchiveStrategy.h:112-141 | no move hits an existing file, every file keeps its contents under its new name, the newest is at number 0 |
| NumberedArchive.MovedApart | ics_gateway/01.CD/3rd.party.raspi/include/Poco/ArchiveStrategy.h:112-141 | no two files end up under one name |
| NumberedArchive.StageStep | ics_gateway/01.CD/3rd.party.raspi/include/Poco/ArchiveStrategy.h:126-139 | one move of the downward loop |
| NumberedArchive.Archive.ArchiveLog | ics_gateway/01.CD/3rd.party.raspi/include/Poco/ArchiveStrategy.h:94-109 | the log file is renamed if and only if the stamped name was free; otherwise it stays where it is |
| BridgeReport.RunKeepsInv | ics_gateway/01.CD/apps/Bridge/Bridge.cpp:41-80 | every interleaving of collecting, reading and clearing keeps store, draft and reports consistent |
| BridgeReport.ReportsFollowCollection | ics_gateway/01.CD/apps/Bridge/Bridge.cpp:41-80 | no sample is in two reports, and later reports hold later samples |
| BridgeReport.ReportIsComplete | ics_gateway/01.CD/apps/Bridge/Bridge.cpp:41-80 | every report has exactly the configured types as keys, and the entry of a type is what was stored for it, or nothing, when its last device was read in that pass |
| BridgeReport.PushesOne | ics_gateway/01.CD/apps/Bridge/Bridge.cpp:67-79 | a registered pass pushes one report, and no other step pushes any |
| BridgeReport.AlwaysOneStep | ics_gateway/01.CD/apps/Bridge/Bridge.cpp:41-80 | in every run samples can come at any time, and the timer has exactly one kind of step to take |
| BridgeReport.ReadsNewest | ics_gateway/01.CD/apps/Bridge/Bridge.cpp:53-54 | what is read for a type is its newest sample at that moment |
| BridgeReport.ReportedExactly | ics_gateway/01.CD/apps/Bridge/Bridge.cpp:41-80 | in every run a collected sample is in a pushed report if and only if the next step that concerns its type is the timer reading it, that pass ends in a pushed report, and no later device of the pass has its type |
| BridgeReport.LateSampleIsLost | ics_gateway/01.CD/apps/Bridge/Bridge.cpp:53-61 | every sample stored between the read and the clear of its type is in no report, at any later time |
| BridgeReport.SecondSampleLost | ics_gateway/01.CD/apps/Bridge/Bridge.cpp:53-61 | a run of six steps that loses a sample |
| BridgeReport.CollectKeeps | ics_gateway/01.CD/apps/Bridge/Bridge.cpp:138-146 | storing a sample keeps the invariant |

## Left out

- RespParser.ReadLength: signed overflow, undefined in C++, is an explicit outcome and what follows it is not modelled.
- RpcMessage.UnmarshalLoop: memory failures inside one item, and what a failed unmarshal leaves in the message, because both end in the same error.
- RpcRoundTrip.UnmarshalMarshal: says nothing of incomplete messages, whose required strings and structs are null pointers when marshalled.
- RpcStruct.StructDecl.Add: the tokens of a declaration are read already; the length of fixed bytes is a number, not the text of a C expression.
- RpcArray.ArrayField.Add: `int` overflow of the doubled capacity, beyond any memory that could be allocated; elements given back by `clear` are not tracked.
- StreamBuf.Buffer.Put: `setMode` after construction is not modelled.
- Cache.Cache.Get: locking; exceptions thrown by a strategy; `getAllKeys`, which is `Size` with the keys copied. The Unique strategies, which take the expiry from the value, are not modelled one by one; the results about runs hold for them, and that about keys if they meet the contract.
- CacheContract.CollectionMeetsContract: a collection without any strategy holds no keys to compare; the results about runs hold for it too.
- MakeUp.StrMakeUp: values that hold no hole of their own but both begin with the end and end with the beginning of one, with which the loop may or may not end.
- NumberedArchive.Archive.ArchiveByNumber: compression, and errors of the file system.
- LogRotation.Logger.CheckMaxSize: errors of the file system, and the log thread's queue.
- BridgeReport.RunKeepsInv: the JSON of samples and reports; overlapping runs of the timer's callback.
- `ComUtil::substituteStr`, `split`, `StrRemove`, time and crypto helpers: easy, or without a stable meaning.
- `Poco/BufferedStreamBuf.h`: the same algorithm on one buffer.
- ActiveResult for `void`, timed waits, `ThreadPool` and `ActiveDispatcher`.
- Manager, MQTT, sensor, configuration, socket and console code: glue over libraries and the operating system.
- Output text, header guards and file reading of `event_rpcgen.py`: printing only.
