# Verified model of the rpc-frmwrk cores

This project models, in Dafny, the self-contained algorithmic cores of `combase`, of the byte streams of
rpcfs, of the connection manager of `ipc`, and of the two small codecs in `3rd_party`, and proves what
they are for. `dafny verify dfyconfig.toml` checks all of it.

* **The lock.** `SharedLock.dfy` is `CSharedLock`, each method one critical section; `SharedLockSystem.dfy`
  puts any number of threads around it, with two semaphores whose tokens any sleeper of the right kind
  may take, and proves exclusion, no lost wake-up, arrival order, maximal reader batches and bounded
  waiting with an exact measure over all interleavings; `SharedLockHistory.dfy` performs the events with
  the class, and states exclusion over histories of calls.
* **Buffers and the RIDL codec.** `Buffer.dfy` is `CBuffer` for memory data: an inline array, a heap block
  or nothing, with a visible window. `RidlSpec.dfy` says what bytes a value is and what the decoder makes
  of any bytes; `RidlRoundTrip.dfy` proves them inverse, and `RidlLayout.dfy` says octet by octet where
  they stand; `RidlCodec.dfy` is the recursive serializer and deserializer over a `CBuffer`, proved equal
  to the specification.
* **rpcfs streams.** `Framing.dfy` says what the reassembly of length-prefixed messages does with a byte
  stream; `RespFile.dfy` is the class that does it from fragments, in place; `EvtFile.dfy` is the other
  side, which queues messages and hands them out in reads of any size; `TaskIds.dfy` follows the request
  ids over whole runs.
* **SHA-1 and base64.** `Fips180.dfy` is SHA-1 as FIPS PUB 180-1, sections 2 to 7, defines it,
  `Fips180Constants.dfy` says what its constants and functions are, `Fips180Example.dfy` is the example of
  its Appendix A, and `Sha1.dfy` the streaming class. `Rfc4648.dfy` is section 4 of RFC 4648, and `Base64.dfy` the two loops.
* **The registry.** `PathName.dfy` takes paths apart; `Registry.dfy` is the tree with its parent links,
  path lookup, and MakeDir with rollback.
* **Property databases and vectors.** `ConfigSpec.dfy`, `ConfigRoundTrip.dfy` and `ConfigDb.dfy` are the
  growing-buffer codec of `CConfigDb2`; `ObjSpec.dfy`, `ObjRoundTrip.dfy` and `ObjVector.dfy` the aligned
  offset table of `CStlObjVector`, with vectors of numbers, property databases and vectors of objects as
  its elements; `ConfigLayout.dfy` and `ObjLayout.dfy` say octet by octet where both stand.
* **The connection manager.** `ConnMgr.dfy` is `CIfSvrConnMgr`, three maps that follow the history of
  invocations, completions and disconnections.

`Bytes.dfy` has octets, network byte order and a few facts about sequences; `Errno.dfy` the status codes.

Five findings are stated as theorems with their exact conditions, because the code does not do what one
would expect of it on all inputs. A property database is read back exactly if it has at most 1024
properties and holds no empty bytearray: the writer does not move past the length of an empty one, and
writes more properties than the reader allows (`ReadBackIffPlain`, `Clone`). A vector of 10000 or more
objects is written but never read back, since its header stays in host byte order (`SendTo`). A full path
leads back to its entry exactly if every name on it is ordinary; `MakeEntry` accepts names with slashes
behind them, and the path of such an entry leads to its namesake without slashes (`FindAgain`,
`MakeAndFind`). The byte counter of an event file is right after an eviction exactly if nothing evicted
had been read from, and otherwise the reader gets a torn stream (`ReceiveEvtJson`, `HalfReadMessage`). A
task may answer, by its state, exactly if it runs, its source has not disconnected since it was last
invoked, and nor has the source of an earlier task of the same handle that it overwrote
(`StateIsAnswerable`, `CanResponse`). Besides, the byte count of a RIDL array is not checked on reading
and errors inside an array are dropped, in contrast to a map's (`ArrayByteCountIsIgnored`,
`MapByteCountIsChecked`). The comment on `dwCount` in include/stlcont.h:273-275 speaks of the number of
offsets less one; the code stores the number of offsets, and so does the model.

## Model
| member | source | states |
|---|---|---|
| `SharedLock.SettleTakesPrefix` | combase/objbase.cpp:1295-1341 | Admitting from the front takes a prefix off the queue, the holders grow by exactly the requests taken, and readers and writer stay exclusive |
| `SharedLock.SettleIsMaximalBatch` | combase/objbase.cpp:1316-1341 | What is taken off the queue is one writer, or all readers up to the next writer or the end |
| `SharedLock.ArriveAdmitsOnlyPastEmptyQueue` | combase/objbase.cpp:1259-1293 | A newcomer gets in at once exactly when nobody is queued and the holders allow it, otherwise it goes to the end of the queue |
| `SharedLock.CSharedLock.LockRead` | combase/objbase.cpp:1259-1270 | The critical section admits or queues a reader by the admission rule, and says whether to sleep |
| `SharedLock.CSharedLock.LockWrite` | combase/objbase.cpp:1272-1293 | Likewise for a writer; the fault exit is taken exactly for a free, unqueued lock with a negative reader count |
| `SharedLock.CSharedLock.ReleaseRead` | combase/objbase.cpp:1295-1314 | A leaving reader hands the lock on by the admission rule with one token per slot handed out; the exact condition of the fault exits |
| `SharedLock.CSharedLock.ReleaseWrite` | combase/objbase.cpp:1316-1341 | A leaving writer hands the lock to the next writer or to all readers up to it, one token each; a call with no writer inside spoils a sound lock exactly if a request is queued |
| `SharedLock.CSharedLock.TryLockRead` | combase/objbase.cpp:1343-1352 | Succeeds exactly when a reader would be admitted without queueing, otherwise changes nothing |
| `SharedLock.CSharedLock.TryLockWrite` | combase/objbase.cpp:1354-1366 | Succeeds exactly when a writer would be admitted without queueing, otherwise changes nothing; the choice of the error code |
| `SharedLockSystem.StepKeepsInv` | combase/objbase.cpp:1259-1366 | Every event keeps: reader count = readers inside + reader tokens, writer flag = writers inside + writer tokens, sleepers = queue entries of their kind + tokens, the queue's front is not admissible |
| `SharedLockSystem.WriterIsAlone` | combase/objbase.cpp:1259-1341 | In every reachable state of any number of threads a writer inside excludes every other thread |
| `SharedLockSystem.NoLostWakeup` | combase/objbase.cpp:1259-1341 | While a thread sleeps, a token some sleeper can take is posted or a thread is inside; tokens never outnumber sleepers of their kind |
| `SharedLockSystem.FaultsUnreachable` | combase/objbase.cpp:1272-1314 | The -EFAULT exits of LockWrite and ReleaseRead are unreachable |
| `SharedLockSystem.GrantedInArrivalOrder` | combase/objbase.cpp:1259-1341 | Over every run slots are granted exactly in the order they were asked for |
| `SharedLockSystem.NoOvertaking` | combase/objbase.cpp:1259-1366 | While a request is queued neither Lock nor TryLock calls of others get in before it |
| `SharedLockSystem.ReadersEnterInMaximalBatches` | combase/objbase.cpp:1316-1341 | A leaving writer lets in one writer, or every reader up to the next writer and never fewer |
| `SharedLockSystem.StepMovesQueuedRequest` | combase/objbase.cpp:1259-1366 | A release brings a queued request exactly one closer, and nothing else moves it |
| `SharedLockSystem.BoundedWaiting` | combase/objbase.cpp:1295-1341 | A queued request is granted within as many releases as there were requests ahead and slots held, whatever else happens |
| `SharedLockHistory.Perform` | combase/objbase.cpp:1259-1366 | What each method of the class does to the lock and its semaphores is the step of the system, and its outcome says whether the step leaves the caller inside, asleep or outside; nobody else moves |
| `SharedLockHistory.CallsAfter` | combase/objbase.cpp:1259-1366 | What a thread holds follows from the call by which it asked, its outcome and its wake-up and release |
| `SharedLockHistory.CallsTell` | combase/objbase.cpp:1259-1366 | After every history of calls, those who hold or wait for the lock by what they called are exactly those inside and asleep as readers and writers |
| `SharedLockHistory.WriterExcludesAll` | combase/objbase.cpp:1259-1366 | Over every history of calls of any number of threads: if a thread's last lock call was LockWrite or TryLockWrite, and it does not sleep and has not released, nobody else has got in |
| `Buffer.CBuffer.NoFree` | combase/buffer.cpp:278-303 | A buffer over somebody else's memory refers to exactly that memory, or owns a copy of less than 128 bytes |
| `Buffer.CBuffer.ResizeWithOffset` | combase/buffer.cpp:368-484 | With an offset or a shadow, resizing keeps the first min(old, new) visible bytes at the start of the right block |
| `Buffer.CBuffer.Resize` | combase/buffer.cpp:486-594 | Keeps the first min(old, new) visible bytes and leaves exactly the new number of them, in every move between nothing, inline and heap; the exact error codes; ERROR_STATE is never returned |
| `Buffer.CBuffer.Append` | combase/buffer.cpp:1044-1066 | Succeeds exactly for nonempty bytes that fit a buffer of its own, and then the visible bytes are the old ones followed by the new; otherwise nothing changes |
| `Buffer.CBuffer.SetOffset` | include/buffer.h:256-269 | The offset moves exactly if it stays within the tail; no byte changes |
| `Buffer.CBuffer.IncOffset` | include/buffer.h:303-304 | Consuming n visible bytes leaves the others; more than there are is refused |
| `Buffer.CBuffer.SetTailOff` | include/buffer.h:271-283 | The tail is clamped between the offset and the size of the block |
| `Buffer.CBuffer.SetWinSize` | include/buffer.h:285-288 | The window ends where asked or at the end of the block |
| `Buffer.CBuffer.SlideWindow` | include/buffer.h:290-298 | The window moves behind itself over the next bytes of the block, as many as asked or as are left |
| `RidlRoundTrip.RoundTrip` | include/seribase.h:179-639 | For every typed value nested to any depth within the limits, decoding its bytes plus any suffix gives the value and consumes exactly its own bytes |
| `RidlRoundTrip.ArrayRoundTrip` | include/seribase.h:179-257 | Arrays of any element type come back, empty ones too |
| `RidlRoundTrip.MapRoundTrip` | include/seribase.h:259-347 | Maps come back with the same keys, values and order |
| `RidlRoundTrip.VarRoundTrip` | combase/variant.cpp:675-829 | Every Variant of a scalar, string, bytearray or nothing comes back, and its type with it |
| `RidlRoundTrip.InsertLast` | include/seribase.h:600-625 | Sorted keys rebuild the map in its order |
| `RidlRoundTrip.MapByteCountIsChecked` | include/seribase.h:535-639 | A nonempty map decodes if and only if its byte count is the right one; any other is refused with -EBADMSG |
| `RidlRoundTrip.ArrayByteCountIsIgnored` | include/seribase.h:441-531 | Any nonzero byte count of a nonempty array is accepted |
| `RidlCodec.SignatureDescends` | include/seribase.h:187-207 | Stripping a container's brackets leaves the signatures of its parts |
| `RidlLayout.LaidIsEnc` | include/seribase.h:100-347 | The bytes of a value nested to any depth are exactly those laid out for it octet by octet: widths of the kinds, octets by division, length words, type ids, byte and element counts |
| `RidlLayout.ScalarRead` | combase/seribase.cpp:235-387 | For any bytes, each kind is read from its literal number of octets, which are laid out for the number read; the error codes of too few |
| `RidlLayout.StringRead` | combase/seribase.cpp:389-413 | A string is the bytes behind its length word, cut off where the bytes end |
| `RidlLayout.ByteArrRead` | combase/seribase.cpp:464-496 | A bytearray that is read is laid out in exactly the bytes consumed |
| `RidlLayout.VariantRead` | combase/variant.cpp:675-754 | A Variant is read by its literal type id, and what is read is laid out in the bytes consumed; other ids are refused |
| `RidlLayout.KeysByValue` | include/seribase.h:600-625 | Integer keys are ordered by their value, signed ones in two's complement |
| `RidlLayout.KeysByBytes` | include/seribase.h:600-625 | String keys are ordered by the first byte in which they differ |
| `RidlCodec.AppendAtCursor` | include/seribase.h:677-683 | The APPEND macro adds bytes at the end without dropping any |
| `RidlCodec.SerializeWord` | combase/seribase.cpp:29-147 | Scalars are appended in network order |
| `RidlCodec.SerializeBlob` | combase/seribase.cpp:149-227 | Strings and bytearrays are appended behind their length; too long ones are refused |
| `RidlCodec.SerializeVariant` | combase/variant.cpp:756-829 | A Variant is appended as its type and value |
| `RidlCodec.SerialElem` | include/seribase.h:100-177 | Whatever fits is appended as exactly its encoding, at every nesting depth, and the new bytes are laid out for the value |
| `RidlCodec.PatchByteCount` | include/seribase.h:236-254 | The back-patched count is the encoded length of the container's elements |
| `RidlCodec.SerializeArray` | include/seribase.h:179-257 | An array is appended as byte count, element count and elements |
| `RidlCodec.SerializeMap` | include/seribase.h:259-347 | A map is appended as byte count, pair count and pairs |
| `RidlCodec.DeserializeWord` | combase/seribase.cpp:235-387 | Reads a scalar off the window for any bytes as the specification says, errors included |
| `RidlCodec.DeserializeStr` | combase/seribase.cpp:389-413 | Likewise a string |
| `RidlCodec.DeserializeByteArr` | combase/seribase.cpp:464-496 | Likewise a bytearray |
| `RidlCodec.DeserializeVariant` | combase/variant.cpp:675-754 | Likewise a Variant |
| `RidlCodec.DeserialElem` | include/seribase.h:362-438 | The recursive decoder does with any bytes what the specification says: return code, value and cursor; scalars and bytearrays consume exactly the octets laid out for them |
| `RidlCodec.DeserialArray` | include/seribase.h:441-531 | Likewise for arrays, where errors of the element loop are dropped: for any bytes the return code is success exactly if the header is readable |
| `RidlCodec.DeserialMap` | include/seribase.h:535-639 | Likewise for maps, where they are returned: success means that a nonempty map took exactly the announced number of bytes |
| `RidlCodec.SendAndReceive` | include/seribase.h:87-97 | What is serialized into a new buffer and deserialized is the same value, and nothing is left over |
| `Framing.DriveResumes` | fuse/fuseif.cpp:2913-3127 | Delivery can stop after any byte and resume with what was kept; an error stays whatever follows |
| `Framing.FragmentationIndependent` | fuse/fuseif.cpp:2913-3127 | A stream that can be delivered without an error is delivered alike in whatever pieces it is written |
| `Framing.StreamDelivered` | fuse/fuseif.cpp:2913-3127 | A stream of good messages is dispatched in order and exactly, and an incomplete end is kept |
| `Framing.PrefixIsWholeMessages` | fuse/fuseif.cpp:2791-2840 | Any prefix of a stream is some whole messages and less than one more |
| `Framing.FrameIs` | fuse/fuseif.cpp:2503-2506 | A frame is the length in four octets, the highest first, and the text |
| `Framing.GoodOnesFirst` | fuse/fuseif.cpp:2913-3127 | Good messages are delivered in order whatever comes behind them, and then what comes behind them is |
| `Framing.UnreadableIsReported` | fuse/fuseif.cpp:3027-3127 | A text that cannot be read is reported with the reader's error and drops all that is held |
| `Framing.FailureIsReported` | fuse/fuseif.cpp:3027-3127 | A failing handler has been given its text, its response is retired, its error is reported and all that is held is dropped |
| `Framing.UnawaitedIsPassedOver` | fuse/fuseif.cpp:3093-3116 | A response nobody waits for changes nothing |
| `Framing.TooLongIsReported` | fuse/fuseif.cpp:2947-2956 | A length above two megabytes is refused with -EFBIG as soon as it is there |
| `Framing.PrefixDelivered` | fuse/fuseif.cpp:2913-3127 | After any prefix in any pieces the complete messages have been dispatched in order and exactly the undelivered suffix is kept |
| `Framing.KeptIsIncomplete` | fuse/fuseif.cpp:2913-3127 | What a write leaves behind is never a whole message |
| `Framing.AnswersComeFromTasks` | fuse/fuseif.cpp:3093-3116 | What a write answers and what still waits are together what was answered and waited before |
| `RespFile.CFuseRespFileSvr.CopyFromBufVec` | fuse/fuseif.cpp:2751-2789 | The bytes of a write, from its offset on, are queued in order |
| `RespFile.ContentIs` | fuse/fuseif.cpp:2751-2789 | The content of a write is all memory from its index on, without the bytes in front of its offset |
| `RespFile.CFuseRespFileSvr.GetReqSize` | fuse/fuseif.cpp:2791-2840 | Gathers the four bytes of a length across buffers without losing any |
| `RespFile.CFuseRespFileSvr.HoldForMore` | fuse/fuseif.cpp:2962-2985 | While a message is incomplete its bytes move into memory of the file's own |
| `RespFile.CFuseRespFileSvr.TakeBody` | fuse/fuseif.cpp:2987-3025 | Takes exactly the next n bytes off the queue, across buffers |
| `RespFile.CFuseRespFileSvr.ReceiveMessage` | fuse/fuseif.cpp:2932-3025 | One message leaves the file when it is complete; too long a one is refused as soon as its length is there |
| `RespFile.CFuseRespFileSvr.fs_write_buf` | fuse/fuseif.cpp:2913-3136 | Does with any fragment exactly what the specification does with all bytes so far; afterwards no buffer refers to the caller's memory |
| `RespFile.CFuseRespFileSvr.CancelFsRequests` | fuse/fuseif.cpp:2842-2862 | Forgets all ids and all bytes, and returns the ids |
| `RespFile.CFuseRespFileSvr.AddTaskId` | fuse/fuseif.h:715-719 | Registers an id |
| `RespFile.CFuseRespFileSvr.RemoveTaskId` | fuse/fuseif.h:721-729 | Retires an id, -ENOENT if it is not pending |
| `EvtFile.CFuseEvtFile.GetBytesAvail` | fuse/fuseif.h:498-505 | The sum of the unread parts |
| `EvtFile.CFuseEvtFile.ReceiveEvtJson` | fuse/fuseif.cpp:2491-2528 | A message is queued behind its length; the fewest oldest messages that suffice go, so that neither limit is exceeded: none with room, one from a full queue of small ones, never the new one unless more has been read of the first than it has bytes; a right counter stays right if and only if nothing had been read of those evicted, and then the reader gets the stream of the messages left, otherwise the read part of one that went and that stream behind it |
| `EvtFile.CFuseEvtFile.FillBufVec` | fuse/fuseif.cpp:2067-2146 | Removes exactly the first n unread bytes, or none when there are fewer |
| `EvtFile.CFuseEvtFile.fs_read` | fuse/fuseif.cpp:2455-2489 | A read of any size hands out the next bytes of the stream; none is lost or changes its place |
| `EvtFile.CounterAfterEviction` | fuse/fuseif.cpp:2510-2517 | After an eviction the byte counter is too low by exactly what had been read of the messages evicted |
| `EvtFile.CounterRightAfterEviction` | fuse/fuseif.cpp:2510-2517 | In 32-bit arithmetic it is right exactly if nothing had been read of them |
| `EvtFile.OneForOne` | fuse/fuseif.cpp:2508-2517 | A full queue within the byte limit loses exactly its oldest message for each one received |
| `EvtFile.NewestStays` | fuse/fuseif.cpp:2508-2517 | A message that fits is not evicted by its own arrival, unless more has been read of the first one than it has bytes |
| `EvtFile.SentSoFar` | fuse/fuseif.cpp:2067-2146 | What was handed out are whole messages and the read part of the first one in the queue |
| `EvtFile.Evicted` | fuse/fuseif.cpp:2510-2517 | The counter and the bytes the reader gets after any eviction, for both cases |
| `EvtFile.HalfReadMessage` | fuse/fuseif.cpp:2913-3127 | Half a frame and what follows it read as the message of that frame if and only if the other half follows |
| `EvtFile.HalfReadIsFilledUp` | fuse/fuseif.cpp:2913-3127 | Once the length is read the reader fills the message up with whatever follows |
| `EvtFile.ReadThenWrite` | fuse/fuseif.cpp:2067-3127 | Printer and parser are inverse: messages queued on one file, read in any sizes and written to the other in any pieces come out in order, all that were not evicted once everything is read |
| `TaskIds.Perform` | fuse/fuseif.cpp:3160-3199 | What a method of the response file does is the step of the ledger |
| `TaskIds.StepKeepsAccount` | fuse/fuseif.cpp:2842-3136 | Every step keeps the account of ids answered, cancelled and waiting; a registration adds its id |
| `TaskIds.EveryIdAccountedOnce` | fuse/fuseif.cpp:2842-3136 | Over every run with fresh ids, answered, cancelled and waiting ids are together exactly the registered ones |
| `TaskIds.RetiredAtMostOnce` | fuse/fuseif.cpp:3093-3116 | An id is retired at most once, exactly if it was registered and does not wait any more |
| `TaskIds.AnsweredWasWaiting` | fuse/fuseif.cpp:3093-3116 | A response is dispatched only for an id that was pending, once |
| `Fips180.WordOfIsBigEndian` | 3rd_party/sha1.cpp:427-433 | The word put together by shifts is the big-endian number of its four octets |
| `Fips180.ZeroCount` | 3rd_party/sha1.cpp:521-551 | The zeros of the padding are the least number that fills whole blocks |
| `Fips180.EntryIsW` | 3rd_party/sha1.cpp:435-438 | The table of 80 words holds the words that section 7 defines |
| `Fips180.PaddedByOne` | 3rd_party/sha1.cpp:543-565 | With up to 55 octets left over, one more block finishes the digest |
| `Fips180.PaddedByTwo` | 3rd_party/sha1.cpp:528-565 | With more, two blocks do |
| `Fips180Constants.KIsRoot` | 3rd_party/sha1.cpp:413-418 | The four constants are the integral parts of 2^30 times the roots of 2, 3, 5 and 10, in this order |
| `Fips180Constants.ChoosesC` | 3rd_party/sha1.cpp:446-455 | In the first twenty steps the function takes the bits of C where B has ones |
| `Fips180Constants.ChoosesD` | 3rd_party/sha1.cpp:446-455 | and those of D where it has zeros |
| `Fips180Constants.ParityTakesD` | 3rd_party/sha1.cpp:457-489 | In the second and last twenty it is the parity: where B and C agree it takes D, and likewise for the other pairs |
| `Fips180Constants.MajorityOfBC` | 3rd_party/sha1.cpp:468-478 | In the third twenty it is the majority: where B and C agree it takes these, and likewise for the other pairs |
| `Fips180Constants.InitialPattern` | 3rd_party/sha1.cpp:100-114 | The octets of the initial words count up, down, and down in steps of 15 |
| `Fips180Example.RegistersOfAbc` | 3rd_party/sha1.cpp:411-498 | The registers after each of the 80 steps for the message abc, as the standard's Appendix A lists them |
| `Fips180Example.DigestOfAbc` | 3rd_party/sha1.cpp:411-566 | The digest of abc is a9993e36 4706816a ba3e2571 7850c26c 9cd0d89d |
| `Sha1.SHA1.constructor` | 3rd_party/sha1.cpp:59-62 | A new object has read nothing |
| `Sha1.SHA1.Reset` | 3rd_party/sha1.cpp:100-114 | Starts over with an empty message |
| `Sha1.SHA1.CircularShift` | 3rd_party/sha1.cpp:587-590 | Two shifts and an OR rotate a word |
| `Sha1.SHA1.ProcessMessageBlock` | 3rd_party/sha1.cpp:411-498 | The four loops compute the standard's compression of the block |
| `Sha1.SHA1.Input` | 3rd_party/sha1.cpp:175-212 | The message grows by the octets given, in whatever pieces; input after the result is an error that is remembered |
| `Sha1.SHA1.CountOctet` | 3rd_party/sha1.cpp:193-203 | The two length words count 64 bits, and their overflow marks the message as too long |
| `Sha1.SHA1.PadMessage` | 3rd_party/sha1.cpp:521-566 | Padding in place completes the digest of FIPS PUB 180-1 |
| `Sha1.SHA1.Result` | 3rd_party/sha1.cpp:134-155 | The digest of everything input since Reset, every time; refused exactly for 2^64 bits or more or for input after a result |
| `Sha1.DigestInPieces` | 3rd_party/sha1.cpp:134-212 | Any split of a message gives the standard's digest of the whole, twice the same |
| `Rfc4648.EncodeLength` | 3rd_party/base64.cpp:50-52 | Four characters for every three octets begun |
| `Rfc4648.EncodingIsDecodable` | 3rd_party/base64.cpp:93-122 | An encoding is the characters of sextets that stand for the octets, and padding |
| `Rfc4648.DecodeEncode` | 3rd_party/base64.cpp:70-211 | Reading an encoding up to its padding gives the octets back |
| `Rfc4648.SextetOf` | 3rd_party/base64.cpp:40-48 | Exactly the alphabet characters have a value, the one that encodes to them |
| `Base64.TableIs` | 3rd_party/base64.cpp:40-43 | The character string is Table 1 of RFC 4648 |
| `Base64.EncodingIs` | 3rd_party/base64.cpp:93-122 | The characters of one, two and three octets, each by its six bits, and the equals signs |
| `Base64.EncodingGoesOn` | 3rd_party/base64.cpp:93-122 | Longer input is encoded three octets at a time |
| `Base64.TestVectors` | 3rd_party/base64.cpp:70-128 | The encodings of f, fo, foo and foobar are those of section 10 of RFC 4648 |
| `Base64.FindIsSextetOf` | 3rd_party/base64.cpp:181-181 | find gives the value of an alphabet character, and npos for any other |
| `Base64.is_base64` | 3rd_party/base64.cpp:46-48 | Exactly the alphabet characters are accepted |
| `Base64.SplitIsSextets` | 3rd_party/base64.cpp:96-99 | Masks, shifts and sums cut 24 bits into four groups of six |
| `Base64.JoinIsOctets` | 3rd_party/base64.cpp:183-205 | They put them together again, and of an incomplete group the octets kept do not depend on the missing characters |
| `Base64.EncodeTo` | 3rd_party/base64.cpp:93-122 | The loop writes exactly the encoding, byte by byte of the input |
| `Base64.base64_encode` | 3rd_party/base64.cpp:70-128 | The encoding is appended behind the buffer's content with exactly base64_enc_len characters, so that -ERANGE is never returned |
| `Base64.DecodeTo` | 3rd_party/base64.cpp:177-205 | The loop writes the octets of everything in front of the first character outside of the alphabet, never beyond the buffer |
| `Base64.LengthMatches` | 3rd_party/base64.cpp:56-68 | What can be decoded is never longer than base64_dec_len, and equally long exactly for a decodable string |
| `Base64.base64_decode` | 3rd_party/base64.cpp:144-211 | Succeeds exactly for whole groups in the alphabet up to the padding, if the buffer can grow, and appends the octets; the other outcomes in full |
| `Base64.RoundTrip` | 3rd_party/base64.cpp:70-211 | Every encoding of something is decodable, to what was encoded, with the computed length |
| `Base64.EncodeAndDecode` | 3rd_party/base64.cpp:70-211 | Both methods together append exactly the octets behind whatever was in the buffer |
| `PathName.Namei` | combase/registry.cpp:260-311 | The components are the root, if the path begins with a slash, and exactly the nonempty segments in order; empty and too long paths are refused |
| `PathName.ComponentsStep` | combase/registry.cpp:275-303 | One round of the loop, cutting at the last slash, takes off the last component |
| `PathName.SplitAtSlash` | combase/registry.cpp:260-311 | Pieces on both sides of a slash are the pieces of the two sides |
| `PathName.ComponentsOfFullPath` | combase/registry.cpp:225-311 | A full path of ordinary names is taken apart into the root and these names |
| `PathName.ComponentsOfLast` | combase/registry.cpp:225-311 | Behind ordinary names, a last name that is not ordinary is taken apart into its segments |
| `PathName.OneComponent` | combase/registry.cpp:260-311 | A path has one component other than the root exactly if it is a name and any slashes behind it |
| `PathName.DotComponents` | combase/registry.cpp:260-311 | One dot and two dots are components |
| `Registry.CDirEntry.GetChild` | combase/registry.cpp:121-133 | The child of that name, or null, also for too long a name |
| `Registry.CDirEntry.AddChild` | combase/registry.cpp:181-199 | Hangs an entry below another one unless its name is taken |
| `Registry.CDirEntry.AddNewChild` | combase/registry.cpp:166-179 | Makes a new entry unless its name is too long or taken |
| `Registry.CDirEntry.RemoveChild` | combase/registry.cpp:201-215 | Removes exactly the child of that name |
| `Registry.CRegistry.SamePath` | combase/registry.cpp:181-199 | In a tree whose links agree a path belongs to one entry |
| `Registry.CRegistry.GetEntry` | combase/registry.cpp:351-400 | Finds an entry exactly if every component leads to one, and then the one whose path is what resolving the components name by name gives, with two dots for the parent and a slash for the root; the error code of each failure |
| `Registry.CRegistry.WalkResolves` | combase/registry.cpp:365-395 | Components lead to an entry if and only if each of them does, and then to the path they resolve to |
| `Registry.CRegistry.ChangeDir` | combase/registry.cpp:337-349 | The current directory moves exactly if the entry is found, to the path the components resolve to; two dots go to the parent, or nowhere from the root, and one dot stays |
| `Registry.CRegistry.GetFullPath` | combase/registry.cpp:225-243 | The names from the root down to the entry, with slashes in front |
| `Registry.CRegistry.WalkDown` | combase/registry.cpp:365-395 | Walking down the ordinary names of an entry's path leads to it |
| `Registry.CRegistry.FindAgain` | combase/registry.cpp:225-400 | GetEntry of GetFullPath is the entry exactly if all names on the way are ordinary and the path is not longer than REG_MAX_PATH |
| `Registry.CRegistry.CreateChild` | combase/registry.cpp:533-533 | A new entry keeps names, parent links and map entries in agreement |
| `Registry.CRegistry.MakeNames` | combase/registry.cpp:524-545 | The walk makes just what is missing, as one chain below one old entry, until a name is too long |
| `Registry.CRegistry.Rollback` | combase/registry.cpp:547-561 | The rollback loop takes off exactly the chain that was made |
| `Registry.CRegistry.MakeDir` | combase/registry.cpp:493-571 | All or nothing: succeeds exactly for a legal path of short names, and then the current directory is the leaf, all old entries survive and only entries on the path are new; otherwise tree and current directory are as before |
| `Registry.CRegistry.MakeEntry` | combase/registry.cpp:402-441 | Makes an entry exactly for a short name, with any slashes behind it, that is not taken; the slashes stay part of the name |
| `Registry.CRegistry.MakeAndFind` | combase/registry.cpp:225-441 | What MakeEntry made is found by its full path if and only if all names on it are ordinary and it is not too long; with slashes behind its name the path leads to the entry without them, if there is one |
| `ConfigRoundTrip.ItemsRoundTrip` | combase/config.cpp:249-690 | The items are read back in the order they were written, and nothing more is read |
| `ConfigRoundTrip.ReadBackOverrides` | combase/config.cpp:203-695 | In any order of the hash map, reading overrides the reader's properties with those written |
| `ConfigRoundTrip.ReadBackIffPlain` | combase/config.cpp:419-447 | For every order of the hash map, reading into an empty database gives the same map if and only if it has at most 1024 properties and 16 MB and holds no empty bytearray |
| `ConfigRoundTrip.TakenAlike` | combase/config.cpp:510-690 | Any two listings of a map take the same number of bytes to read |
| `ConfigRoundTrip.SetListing` | combase/config.cpp:683-683 | Setting the items of a listing one after the other is the union that prefers them |
| `ConfigLayout.DatabaseIsLaid` | combase/config.cpp:219-475 | For every order of the hash map the encoding is laid out octet by octet: header words, version, keys, type ids and values |
| `ConfigDb.CConfigDb2.ResizeBuf` | combase/config.cpp:203-215 | Growing the buffer keeps every byte in front of the cursor |
| `ConfigDb.CConfigDb2.PutSmall` | combase/config.cpp:251-333 | A small value fits after growing by QPAGE at most once |
| `ConfigDb.CConfigDb2.PutItem` | combase/config.cpp:249-457 | One property is written as key, type and value, an empty bytearray as nothing; none is refused with -EFAULT |
| `ConfigDb.CConfigDb2.PatchSize` | combase/config.cpp:459-469 | The size in the header counts everything behind the base header |
| `ConfigDb.CConfigDb2.Serialize` | combase/config.cpp:219-475 | The encoding is appended behind the buffer's content for every order of the map, and the cursor never passes the end; -EFAULT exactly if a property is none |
| `ConfigDb.CConfigDb2.ReadVal` | combase/config.cpp:519-678 | One value is read as the specification says, with its errors |
| `ConfigDb.CConfigDb2.Deserialize` | combase/config.cpp:477-695 | Does with any bytes what the specification says: error code, or all items set in order; a refused header changes nothing |
| `ConfigDb.CConfigDb2.Clone` | combase/config.cpp:707-725 | All outcomes: the target overridden by the source; unchanged with -EFAULT or -EINVAL for a source with a none or beyond the limits; never an equal copy of a source with an empty bytearray |
| `ObjRoundTrip.OffsetsAscend` | combase/serial.cpp:254-291 | The offsets are multiples of four and strictly increasing |
| `ObjRoundTrip.LastOffsetIsSize` | combase/serial.cpp:296-298 | The last offset is the size of the payload |
| `ObjRoundTrip.SliceIsElement` | combase/serial.cpp:382-391 | Between consecutive offsets lies one element with its padding |
| `ObjRoundTrip.ElemsRoundTrip` | combase/serial.cpp:382-414 | Slicing by consecutive offsets decodes every element in order |
| `ObjRoundTrip.ObjVecRoundTrip` | combase/serial.cpp:231-419 | A vector of fewer than MAX_ELEM_CONTAINER objects comes back whatever follows it |
| `ObjRoundTrip.RoundTrip` | combase/serial.cpp:29-419 | So does any object, nested to any depth |
| `ObjRoundTrip.NumbersRoundTrip` | combase/serial.cpp:36-129 | So do vectors of 32-bit and 64-bit numbers |
| `ObjRoundTrip.TooManyElements` | include/stlcont.h:329-344 | A longer vector of objects is written in host order and refused on reading |
| `ObjLayout.ObjIsLaid` | combase/serial.cpp:29-307 | Any object, nested to any depth, is laid out octet by octet: class ids, sizes, counts, the table of offsets in network or host order, and elements filled up with zeros |
| `ObjVector.SerializeNumbers` | combase/serial.cpp:528-556 | A vector of numbers is written as header and numbers in network order |
| `ObjVector.AppendElem` | combase/serial.cpp:266-291 | An element is serialized on its own, appended and padded to a multiple of four |
| `ObjVector.PutElems` | combase/serial.cpp:254-298 | The loop leaves the table of offsets in host order and all elements behind it |
| `ObjVector.HToN` | include/stlcont.h:329-344 | The conversion in place turns table and header into network order, or leaves them for too many offsets |
| `ObjVector.SerializeObj` | combase/serial.cpp:229-307 | Any object is written as its encoding |
| `ObjVector.SerializeVec` | combase/serial.cpp:229-307 | So is a vector of objects, its header laid down first and converted last |
| `ObjVector.DeserializeNumbers` | combase/serial.cpp:64-129 | Does with any bytes what the specification of the number vectors says |
| `ObjVector.DeserializeObj` | combase/serial.cpp:399-411 | Decodes by the class id the bytes start with |
| `ObjVector.DeserializeVec` | combase/serial.cpp:319-419 | Does with any bytes what the specification of the object vector says |
| `ObjVector.CStlObjVector.SendTo` | combase/serial.cpp:231-419 | What one vector writes another reads back exactly if there are fewer than MAX_ELEM_CONTAINER elements |
| `ConnMgr.MappedIsRunning` | ipc/connmgr.cpp:78-143 | The address map holds exactly those tasks that were invoked and are not completed |
| `ConnMgr.StaleAfter` | ipc/connmgr.cpp:78-175 | A step leaves nothing stale in the multimap unless it invokes a task with the handle of a running one, and then what is stale stays |
| `ConnMgr.InverseIffFresh` | ipc/connmgr.cpp:78-143 | The multimap is the exact inverse of the address map after exactly the runs with fresh handles |
| `ConnMgr.StaleIsOverwritten` | ipc/connmgr.cpp:78-143 | What is stale in the multimap are exactly the invocations overwritten while they ran |
| `ConnMgr.MappedToLast` | ipc/connmgr.cpp:78-143 | The address map gives the source of the last invocation |
| `ConnMgr.FoundByDisconn` | ipc/connmgr.cpp:145-175 | A disconnection finds the running tasks of that source and the handles it lost to later invocations |
| `ConnMgr.FreshIsNotCutOff` | ipc/connmgr.cpp:78-205 | With fresh handles no task is cut off |
| `ConnMgr.StateIsAnswerable` | ipc/connmgr.cpp:78-205 | After every history a task's state is known if and only if it runs, and true if and only if moreover its source has not disconnected since it was last invoked and nor has the source of an invocation overwritten before |
| `ConnMgr.ReusedHandleIsMistaken` | ipc/connmgr.cpp:78-175 | A handle used again is mistaken exactly after a disconnection of the address it was first used from, for any two addresses |
| `ConnMgr.CIfSvrConnMgr.OnInvokeMethod` | ipc/connmgr.cpp:78-98 | The maps follow an invocation; an invalid handle or empty source is refused |
| `ConnMgr.CIfSvrConnMgr.OnInvokeComplete` | ipc/connmgr.cpp:101-143 | Completes exactly the running tasks |
| `ConnMgr.CIfSvrConnMgr.OnDisconn` | ipc/connmgr.cpp:145-175 | The maps follow a disconnection |
| `ConnMgr.CIfSvrConnMgr.CanResponse` | ipc/connmgr.cpp:179-205 | For every history: 0 exactly if the task is answerable and not cut off by the source of an invocation it overwrote; ERROR_FALSE if it runs otherwise; -ENOENT if it does not run |
| `Bytes.FromBEInvertsBE` | combase/seribase.cpp:29-147 | htons, htonl and htonll are undone by their counterparts for every number that fits |
| `Bytes.OctetIs` | combase/seribase.cpp:29-147 | Octet i of a number in w octets is its quotient by 256^(w-1-i), modulo 256 |
| `Bytes.Word4Is` | combase/seribase.cpp:51-71 | The four octets of a 32-bit word, each by division |

## Left out
- RidlCodec.SerialElem: says nothing about a value that does not fit the 16 MB of a buffer or is not of the signature's type, because the APPEND macro ignores the buffer's errors there.
- RidlCodec.AppendAtCursor: says nothing about bytes beyond the limit of the buffer, whose errors the macro ignores.
- RidlCodec.SerializeWord: likewise.
- RidlCodec.SerializeBlob: likewise.
- RidlCodec.SerializeVariant: likewise.
- RidlCodec.SerializeArray: likewise, and nothing about a value that is not of the signature's type.
- RidlCodec.SerializeMap: likewise, and nothing about a value that is not of the signature's type.
- RidlCodec.DeserializeVariant: type id 9, an object, gives -ENOTSUP, where the source decodes the object (combase/variant.cpp:718-739).
- RidlCodec.DeserializeByteArr: a length beyond the window is -EFAULT, where the source reads on behind it.
- Base64.base64_encode: requires that the encoding fits the buffer, because the source ignores the error of Resize and would write beyond it.
- ConfigDb.CConfigDb2.Serialize: requires that the encoding fits the buffer with a page to spare, because the macro that grows it ignores the error of Resize; a page has at least 4096 bytes.
- ConfigDb.CConfigDb2.Deserialize: states nothing about the properties set before an error behind the header; the bounds are checked before a scalar is read, where the source reads and compares afterwards, with an error in both cases.
- ConfigDb.CConfigDb2.Clone: requires, like Serialize, that the encoding fits the buffer; of a source with an empty bytearray it says only that an empty target does not become its copy.
- ConfigRoundTrip.ReadBackIffPlain: requires that the two 32-bit fields of the header can hold the sizes, and leaves out properties that are none, which Serialize refuses.
- ObjVector.SerializeObj: writes into an empty buffer, as the source does for every element; in a nonempty one the numbers and vectors would overwrite what is there.
- ObjVector.SerializeNumbers: likewise.
- ObjVector.SerializeVec: likewise.
- ObjVector.DeserializeVec: an offset table that is empty, does not ascend or points beyond the end is an error, where the source would read beyond its copy of the table or the buffer; the elements decoded before an error are not stated.
- ObjVector.DeserializeNumbers: numbers beyond the end of the buffer, and a size below its own minimum, are errors, where the source would read beyond or wrap around.
- SharedLock.CSharedLock.LockRead: requires a sound lock, as do the TryLock calls; SharedLockSystem shows that every reachable lock is one. The 32-bit overflow of the reader count is not modelled.
- EvtFile.CFuseEvtFile.ReceiveEvtJson: evicts from a nonempty queue only; when more had been read of an evicted message than the counter still holds, it wraps around, and the source would take the front of an empty queue.
- Registry.CRegistry.MakeDir: the removal of directories, and with it entries that disappear under the current directory, is not modelled.
- ConnMgr.CIfSvrConnMgr.CanResponse: the second form, by address, which looks at the oldest task of the address only.
- Rfc4648.DecodeEncode: line breaks and other characters between the groups, which the loops do not skip either.
- RespFile.CFuseRespFileSvr.fs_write_buf: JSON parsing and the dispatch to handlers are functions that the caller supplies; the file lock, released while a message is dispatched, is held throughout, and writes do not overlap.
- RespFile: a length of zero with no bytes behind it makes the source take the front of an empty vector; here the reader is asked about the empty text.
- The same loop in CFuseReqFileProxy (fuse/fuseif.cpp:3261-3480), whose reader never finds a response, is covered by the specification but not written a second time; its request groups and scheduling are left out.
- Buffers that hold objects or D-Bus messages, Detach and Attach, compression, and the data types kept in the flags.
- Objects, structs, streams and D-Bus messages as RIDL values or properties, floating-point keys of maps, and null objects, which do not come back as written.
- Reading a bytearray that is longer than the window, which has no defined outcome in C++ and is reported as -EFAULT, and the four bytes that CConfigDb2 reads ahead without using them.
- Failed allocations, the locks of the registry and the connection manager, and their properties.
- FUSE kernel calls, polling, descriptors, mounting, task groups, timers, sockets and process helpers; JSON serialization repeats the layout of RIDL over another library.
